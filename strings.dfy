/** The pieces of Python's `str` behaviour that the text pipeline and the
    search engine rely on: whitespace, `strip`, `split` (as a word count),
    `in`, `startswith`, `rfind`, `join`, list reversal and the code-point
    order used by `<` on strings. */
module Strings {

  /** Python's `str.isspace()` for one character. */
  predicate IsSpace(c: char) {
    || ('\t' <= c <= '\r')
    || ('\U{1C}' <= c <= ' ')
    || c == '\U{85}' || c == '\U{A0}' || c == '\U{1680}'
    || ('\U{2000}' <= c <= '\U{200A}')
    || c == '\U{2028}' || c == '\U{2029}' || c == '\U{202F}'
    || c == '\U{205F}' || c == '\U{3000}'
  }

  predicate AllSpace(s: string) {
    forall i | 0 <= i < |s| :: IsSpace(s[i])
  }

  /** Neither end of `s` is whitespace (what `strip()` leaves behind). */
  predicate IsStripped(s: string) {
    s == [] || (!IsSpace(s[0]) && !IsSpace(s[|s| - 1]))
  }

  /** `s.lstrip()` */
  function LStrip(s: string): (r: string)
    ensures |r| <= |s| && r == s[|s| - |r|..]
    ensures r == [] || !IsSpace(r[0])
    ensures AllSpace(s[..|s| - |r|])
  {
    if s != [] && IsSpace(s[0]) then
      var r := LStrip(s[1..]);
      assert s[1..][..|s[1..]| - |r|] == s[1..|s| - |r|];
      r
    else
      s
  }

  /** `s.rstrip()` */
  function RStrip(s: string): (r: string)
    ensures |r| <= |s| && r == s[..|r|]
    ensures r == [] || !IsSpace(r[|r| - 1])
    ensures AllSpace(s[|r|..])
  {
    if s != [] && IsSpace(s[|s| - 1]) then
      var r := RStrip(s[..|s| - 1]);
      assert s[|r|..] == s[..|s| - 1][|r|..] + [s[|s| - 1]];
      r
    else
      s
  }

  /** The non-whitespace characters of `s`, in order. Two texts with the same
      squeeze differ only in where and how much whitespace they hold. */
  function Squeeze(s: string): string {
    if s == [] then [] else (if IsSpace(s[0]) then [] else [s[0]]) + Squeeze(s[1..])
  }

  lemma {:induction false} SqueezeAppend(a: string, b: string)
    ensures Squeeze(a + b) == Squeeze(a) + Squeeze(b)
  {
    if a == [] {
      assert a + b == b;
    } else {
      var head := if IsSpace(a[0]) then [] else [a[0]];
      assert (a + b)[0] == a[0];
      assert (a + b)[1..] == a[1..] + b;
      SqueezeAppend(a[1..], b);
      calc {
        Squeeze(a + b);
        head + Squeeze(a[1..] + b);
        head + (Squeeze(a[1..]) + Squeeze(b));
        (head + Squeeze(a[1..])) + Squeeze(b);
      }
    }
  }

  lemma {:induction false} SqueezeAllSpace(s: string)
    requires AllSpace(s)
    ensures Squeeze(s) == []
  {
    if s != [] {
      SqueezeAllSpace(s[1..]);
    }
  }

  lemma LStripKeeps(s: string)
    ensures Squeeze(LStrip(s)) == Squeeze(s)
  {
    var l := LStrip(s);
    assert s == s[..|s| - |l|] + l;
    SqueezeAppend(s[..|s| - |l|], l);
    SqueezeAllSpace(s[..|s| - |l|]);
  }

  lemma RStripKeeps(s: string)
    ensures Squeeze(RStrip(s)) == Squeeze(s)
  {
    var r := RStrip(s);
    assert s == r + s[|r|..];
    SqueezeAppend(r, s[|r|..]);
    SqueezeAllSpace(s[|r|..]);
  }

  lemma AllSpaceSplit(s: string, k: nat)
    requires k <= |s| && AllSpace(s[..k]) && AllSpace(s[k..])
    ensures AllSpace(s)
  {
    forall i | 0 <= i < |s| ensures IsSpace(s[i]) {
      if i < k { assert s[i] == s[..k][i]; } else { assert s[i] == s[k..][i - k]; }
    }
  }

  /** Stripping both ends leaves nothing exactly when the text is blank. */
  lemma StripBlank(s: string)
    ensures RStrip(LStrip(s)) == [] <==> AllSpace(s)
  {
    var l := LStrip(s);
    var k := |s| - |l|;
    if RStrip(l) == [] {
      assert AllSpace(l[0..]);
      assert l == [];
      assert s[..k] == s;
    } else {
      assert l != [] && RStrip(l)[0] == l[0];
      assert s[k] == l[0];
    }
  }

  lemma StripEnds(s: string)
    ensures IsStripped(RStrip(LStrip(s)))
  {
    var l := LStrip(s);
    var r := RStrip(l);
    assert r != [] ==> r[0] == l[0];
  }

  /** `s.strip()`: the result has no whitespace at either end, is empty
      exactly when `s` is blank, and keeps every other character of `s`. */
  function Strip(s: string): (r: string)
    ensures IsStripped(r)
    ensures |r| <= |s|
    ensures r == [] <==> AllSpace(s)
    ensures Squeeze(r) == Squeeze(s)
  {
    LStripKeeps(s);
    RStripKeeps(LStrip(s));
    StripBlank(s);
    StripEnds(s);
    RStrip(LStrip(s))
  }

  /** Number of maximal runs of non-whitespace in `s` that begin here, given
      whether the character before `s` was whitespace. */
  function WordsFrom(s: string, afterSpace: bool): nat {
    if s == [] then 0
    else (if afterSpace && !IsSpace(s[0]) then 1 else 0) + WordsFrom(s[1..], IsSpace(s[0]))
  }

  /** `len(s.split())`: the number of whitespace-separated words of `s`. */
  function WordCount(s: string): nat {
    WordsFrom(s, true)
  }

  lemma {:induction false} WordsFromZero(s: string, afterSpace: bool)
    requires afterSpace
    ensures WordsFrom(s, afterSpace) == 0 <==> AllSpace(s)
  {
    if s != [] {
      if IsSpace(s[0]) {
        WordsFromZero(s[1..], true);
        assert AllSpace(s[1..]) ==> AllSpace(s) by {
          if AllSpace(s[1..]) {
            forall i | 0 <= i < |s| ensures IsSpace(s[i]) {
              if i > 0 { assert s[i] == s[1..][i - 1]; }
            }
          }
        }
      }
    }
  }

  /** A text has no words exactly when it is blank, which is exactly when its
      strip is empty. */
  lemma WordCountZero(s: string)
    ensures WordCount(s) == 0 <==> AllSpace(s)
    ensures WordCount(s) == 0 <==> Strip(s) == []
  {
    WordsFromZero(s, true);
  }

  /** `p` occurs in `s` starting at index `i`. */
  predicate OccursAt(s: string, p: string, i: int) {
    0 <= i && i + |p| <= |s| && s[i..i + |p|] == p
  }

  /** Python's `p in s` for strings. */
  predicate Contains(s: string, p: string) {
    exists i | 0 <= i <= |s| - |p| :: OccursAt(s, p, i)
  }

  /** Python's `s.startswith(p)`. */
  predicate StartsWith(s: string, p: string) {
    p <= s
  }

  /** `s.rfind(c, 0, end)`: the last index below `end` holding `c`, or -1. */
  function RFindChar(s: string, c: char, end: nat): (r: int)
    requires end <= |s|
    ensures -1 <= r < end
    ensures r >= 0 ==> s[r] == c
    ensures forall j | r < j < end :: s[j] != c
  {
    if end == 0 then -1
    else if s[end - 1] == c then end - 1
    else RFindChar(s, c, end - 1)
  }

  /** `sep.join(parts)` */
  function Join(parts: seq<string>, sep: string): string {
    if |parts| == 0 then ""
    else if |parts| == 1 then parts[0]
    else Join(parts[..|parts| - 1], sep) + sep + parts[|parts| - 1]
  }

  /** Appending one more part adds the separator and the part. */
  lemma JoinAppend(parts: seq<string>, x: string, sep: string)
    requires parts != []
    ensures Join(parts + [x], sep) == Join(parts, sep) + sep + x
  {
    assert (parts + [x])[..|parts|] == parts;
  }

  /** The text assembled so far (the parts, each followed by the separator)
      plus the next part is the join of the parts and that part. */
  lemma JoinStep(ss: seq<string>, x: string, sep: string, acc: string)
    requires ss == [] ==> acc == ""
    requires ss != [] ==> acc == Join(ss, sep) + sep
    ensures acc + x == Join(ss + [x], sep)
  {
    if ss != [] {
      JoinAppend(ss, x, sep);
    } else {
      assert ss + [x] == [x];
    }
  }

  /** Joining two non-empty lists of parts puts one separator between them. */
  lemma {:induction false} JoinSplit(a: seq<string>, b: seq<string>, sep: string)
    requires a != [] && b != []
    ensures Join(a + b, sep) == Join(a, sep) + sep + Join(b, sep)
  {
    var n := |b| - 1;
    var front, y := b[..n], b[n];
    SnocSplit(a, b);
    if n == 0 {
      JoinAppend(a, y, sep);
    } else {
      JoinSplit(a, front, sep);
      JoinAppend(a + front, y, sep);
      SnocSplit([], b);
      JoinAppend(front, y, sep);
      var lhs, mid := Join(a, sep) + sep, Join(front, sep);
      AppendAssoc(lhs, mid, sep);
      AppendAssoc(lhs, mid + sep, y);
    }
  }

  /** A non-empty tail splits off its last element. */
  lemma SnocSplit<T>(a: seq<T>, b: seq<T>)
    requires b != []
    ensures a + b == (a + b[..|b| - 1]) + [b[|b| - 1]]
  {
  }

  /** The parts one after the other: `"".join(parts)`, and list flattening. */
  function Concat<T>(ss: seq<seq<T>>): seq<T> {
    if ss == [] then [] else Concat(ss[..|ss| - 1]) + ss[|ss| - 1]
  }

  lemma ConcatOne<T>(a: seq<seq<T>>, x: seq<T>)
    ensures Concat(a + [x]) == Concat(a) + x
  {
    assert (a + [x])[..|a|] == a;
  }

  lemma ConcatSingleton<T>(x: seq<T>)
    ensures Concat([x]) == x
  {
    ConcatOne([], x);
  }

  lemma {:induction false} ConcatAppend<T>(a: seq<seq<T>>, b: seq<seq<T>>)
    ensures Concat(a + b) == Concat(a) + Concat(b)
  {
    if b != [] {
      var n := |b| - 1;
      ConcatAppend(a, b[..n]);
      assert (a + b)[..|a + b| - 1] == a + b[..n];
      assert b[..n] + [b[n]] == b;
    } else {
      assert a + b == a;
    }
  }

  lemma AppendAssoc<T>(a: seq<T>, b: seq<T>, c: seq<T>)
    ensures a + (b + c) == a + b + c
  {
  }

  /** One more piece done. */
  lemma Advance<T>(done: seq<T>, piece: T, rest: seq<T>, todo: seq<T>, all: seq<T>)
    requires done + todo == all && todo == [piece] + rest
    ensures (done + [piece]) + rest == all
  {
    AppendAssoc(done, [piece], rest);
  }

  lemma SplitAt<T>(s: seq<T>, i: nat)
    requires i <= |s|
    ensures s[..i] + s[i..] == s
  {
  }

  lemma SliceJoin<T>(s: seq<T>, i: nat, j: nat)
    requires i <= j <= |s|
    ensures s[i..j] + s[j..] == s[i..]
  {
  }

  lemma TakeOneMore<T>(s: seq<T>, i: nat)
    requires i < |s|
    ensures s[..i + 1] == s[..i] + [s[i]]
  {
  }

  /** Squeezing is compatible with cutting a text in two and each half into
      parts. */
  lemma SqueezeParts(pre: string, post: string, head: seq<string>, tail: seq<string>)
    requires Squeeze(Concat(head)) == Squeeze(pre)
    requires Squeeze(Concat(tail)) == Squeeze(post)
    ensures Squeeze(Concat(head + tail)) == Squeeze(pre + post)
  {
    ConcatAppend(head, tail);
    SqueezeAppend(Concat(head), Concat(tail));
    SqueezeAppend(pre, post);
  }

  /** Separating the parts by spaces adds whitespace only. */
  lemma {:induction false} SqueezeJoin(parts: seq<string>)
    ensures Squeeze(Join(parts, " ")) == Squeeze(Concat(parts))
  {
    var n := |parts| - 1;
    if n == 0 {
      assert parts[..0] == [];
      assert Concat(parts) == [] + parts[0] == parts[0];
    } else if n > 0 {
      SqueezeJoin(parts[..n]);
      SqueezeAppend(Join(parts[..n], " ") + " ", parts[n]);
      SqueezeAppend(Join(parts[..n], " "), " ");
      SqueezeAppend(Concat(parts[..n]), parts[n]);
      assert Squeeze(" ") == [] by { assert " "[1..] == []; }
    }
  }

  /** `list(reversed(s))` */
  function Reverse<T>(s: seq<T>): (r: seq<T>)
    ensures |r| == |s|
    ensures forall i | 0 <= i < |s| :: r[i] == s[|s| - 1 - i]
  {
    if s == [] then [] else [s[|s| - 1]] + Reverse(s[..|s| - 1])
  }

  lemma ReverseMultiset<T>(s: seq<T>)
    ensures multiset(Reverse(s)) == multiset(s)
  {
    if s != [] {
      ReverseMultiset(s[..|s| - 1]);
      assert s == s[..|s| - 1] + [s[|s| - 1]];
    }
  }

  /** A non-empty sequence's elements are its front's and its last. */
  lemma MultisetSnoc<T>(s: seq<T>)
    requires s != []
    ensures multiset(s) == multiset(s[..|s| - 1]) + multiset{s[|s| - 1]}
  {
    assert s == s[..|s| - 1] + [s[|s| - 1]];
  }

  lemma ReverseInvolution<T>(s: seq<T>)
    ensures Reverse(Reverse(s)) == s
  {
  }

  /** Python's `a < b` on strings: code-point lexicographic order. */
  predicate StrLess(a: string, b: string) {
    |b| > 0 && (|a| == 0 || a[0] < b[0] || (a[0] == b[0] && StrLess(a[1..], b[1..])))
  }

  lemma {:induction false} StrLessIrreflexive(a: string)
    ensures !StrLess(a, a)
  {
    if |a| > 0 {
      StrLessIrreflexive(a[1..]);
    }
  }

  lemma {:induction false} StrLessTransitive(a: string, b: string, c: string)
    requires StrLess(a, b) && StrLess(b, c)
    ensures StrLess(a, c)
  {
    if |a| > 0 && a[0] == b[0] && b[0] == c[0] {
      StrLessTransitive(a[1..], b[1..], c[1..]);
    }
  }

  lemma {:induction false} StrLessTotal(a: string, b: string)
    ensures a == b || StrLess(a, b) || StrLess(b, a)
  {
    if |a| > 0 && |b| > 0 && a[0] == b[0] {
      StrLessTotal(a[1..], b[1..]);
      if a[1..] == b[1..] {
        assert a == [a[0]] + a[1..] && b == [b[0]] + b[1..];
      }
    }
  }

  lemma StrLessAsymmetric(a: string, b: string)
    requires StrLess(a, b)
    ensures !StrLess(b, a)
  {
    if StrLess(b, a) {
      StrLessTransitive(a, b, a);
      StrLessIrreflexive(a);
    }
  }
}
