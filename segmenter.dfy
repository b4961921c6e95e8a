/** The segmenter of the text pipeline: `find_best_split_point` and
    `process_paragraphs`. Paragraphs are stripped and normalised; blank ones
    are dropped; the rest are merged, a space apart, into units that end with
    one of `. ! ? : ؟`; a unit of more than `max_words` words is cut into
    pieces at character offsets chosen around `ideal_words`. */
module Segmenter {
  import opened Wrappers
  import opened Strings

  /** The characters that end a sentence (`end_chars`). */
  predicate IsTerminal(c: char) {
    c == '.' || c == '!' || c == '?' || c == ':' || c == '؟'
  }

  /** `end_chars` in one of the orders a Python set may iterate in; the
      split point does not depend on the order. */
  const EndChars: seq<char> := ['.', '!', '?', ':', '؟']

  lemma EndCharsTerminal()
    ensures forall c :: c in EndChars <==> IsTerminal(c)
  {
  }

  /** `s.endswith(tuple(end_chars))` */
  predicate EndsWithTerminal(s: string) {
    s != [] && IsTerminal(s[|s| - 1])
  }

  function Min(a: int, b: int): int {
    if a <= b then a else b
  }

  /** The last index below `end` that holds a terminal, or -1. */
  function LastTerminal(s: string, end: nat): (r: int)
    requires end <= |s|
    ensures -1 <= r < end
    ensures r >= 0 ==> IsTerminal(s[r])
    ensures forall j | r < j < end :: !IsTerminal(s[j])
  {
    if end == 0 then -1
    else if IsTerminal(s[end - 1]) then end - 1
    else LastTerminal(s, end - 1)
  }

  /** The three properties above pin the index down. */
  lemma LastTerminalUnique(s: string, end: nat, r: int)
    requires end <= |s| && -1 <= r < end
    requires r >= 0 ==> IsTerminal(s[r])
    requires forall j | r < j < end :: !IsTerminal(s[j])
    ensures r == LastTerminal(s, end)
  {
  }

  /** `find_best_split_point(text, ideal_pos, _)`. The comparisons with
      `ideal_pos / 2` and `ideal_pos / 3` are true divisions in Python and are
      written here without division. The cut goes right after the last
      terminal in the first `ideal_pos + 50` characters if that terminal lies
      past half of `ideal_pos`; failing that, right after the last space in
      the first `ideal_pos + 20` characters if it lies past a third of
      `ideal_pos`; failing that, at `ideal_pos` (or at the end of a shorter
      text). */
  function SplitPoint(text: string, ideal: nat): (r: nat)
    ensures r <= |text| && r <= ideal + 50
    ensures text != [] && ideal >= 1 ==> r >= 1
  {
    var limit := Min(|text|, ideal + 50);
    var p := LastTerminal(text, limit);
    if p != -1 && 2 * p > ideal then p + 1
    else
      var spaceEnd := Min(|text|, ideal + 20);
      var sp := RFindChar(text, ' ', spaceEnd);
      if sp != -1 && 3 * sp > ideal then sp + 1
      else Min(ideal, |text|)
  }

  /** Which of the three rules chose the split point, and that the point it
      chose is the last candidate of that rule. */
  lemma SplitPointCases(text: string, ideal: nat)
    ensures (exists q | 0 <= q < Min(|text|, ideal + 50) :: IsTerminal(text[q]) && 2 * q > ideal)
              ==> SplitPoint(text, ideal) >= 1 && IsTerminal(text[SplitPoint(text, ideal) - 1])
                  && forall j | SplitPoint(text, ideal) <= j < Min(|text|, ideal + 50) :: !IsTerminal(text[j])
    ensures (&& !(exists q | 0 <= q < Min(|text|, ideal + 50) :: IsTerminal(text[q]) && 2 * q > ideal)
             && (exists q | 0 <= q < Min(|text|, ideal + 20) :: text[q] == ' ' && 3 * q > ideal))
              ==> SplitPoint(text, ideal) >= 1 && text[SplitPoint(text, ideal) - 1] == ' '
                  && forall j | SplitPoint(text, ideal) <= j < Min(|text|, ideal + 20) :: text[j] != ' '
    ensures (&& !(exists q | 0 <= q < Min(|text|, ideal + 50) :: IsTerminal(text[q]) && 2 * q > ideal)
             && !(exists q | 0 <= q < Min(|text|, ideal + 20) :: text[q] == ' ' && 3 * q > ideal))
              ==> SplitPoint(text, ideal) == Min(ideal, |text|)
  {
  }

  /** `find_best_split_point`, with its loop over `end_chars`: `order` is the
      order in which the set of terminals is visited, and the result is the
      same for every order. */
  method FindBestSplitPoint(text: string, idealPos: nat, order: seq<char>) returns (r: nat)
    requires forall c :: c in order <==> IsTerminal(c)
    ensures r == SplitPoint(text, idealPos)
  {
    var searchLimit := Min(|text|, idealPos + 50);
    var searchRange := text[..searchLimit];
    var lastPuncPos := -1;
    for k := 0 to |order|
      invariant -1 <= lastPuncPos < searchLimit
      invariant lastPuncPos >= 0 ==> text[lastPuncPos] in order[..k]
      invariant forall j | lastPuncPos < j < searchLimit :: text[j] !in order[..k]
    {
      var pos := RFindChar(searchRange, order[k], searchLimit);
      if pos > lastPuncPos {
        lastPuncPos := pos;
      }
      assert order[..k + 1] == order[..k] + [order[k]];
    }
    assert order[..|order|] == order;
    LastTerminalUnique(text, searchLimit, lastPuncPos);
    if lastPuncPos != -1 && 2 * lastPuncPos > idealPos {
      return lastPuncPos + 1;
    }
    var spaceSearchRangeEnd := Min(|text|, idealPos + 20);
    var spacePos := RFindChar(text, ' ', spaceSearchRangeEnd);
    if spacePos != -1 && 3 * spacePos > idealPos {
      return spacePos + 1;
    }
    return Min(idealPos, |text|);
  }

  // ---------------------------------------------------------------------
  // Merging paragraphs into units

  /** `normalizer.normalize(para.strip())` for every paragraph. */
  function Cleaned(paragraphs: seq<string>, normalize: string -> string): (cs: seq<string>)
    ensures |cs| == |paragraphs|
    ensures forall i | 0 <= i < |paragraphs| :: cs[i] == normalize(Strip(paragraphs[i]))
  {
    seq(|paragraphs|, i requires 0 <= i < |paragraphs| => normalize(Strip(paragraphs[i])))
  }

  /** The cleaned paragraphs that are not empty, in order. */
  function NonEmpty(cs: seq<string>): (ne: seq<string>)
    ensures forall x | x in ne :: x != []
  {
    if cs == [] then []
    else NonEmpty(cs[..|cs| - 1]) + (if cs[|cs| - 1] == [] then [] else [cs[|cs| - 1]])
  }

  function Last<T>(s: seq<T>): T
    requires s != []
  {
    s[|s| - 1]
  }

  /** A group is closed once its last paragraph ends a sentence. */
  predicate Closed(group: seq<string>) {
    group != [] && EndsWithTerminal(Last(group))
  }

  /** How the merge pass groups the non-empty paragraphs: a paragraph joins
      the open group unless the last group is closed. */
  function Groups(ne: seq<string>): seq<seq<string>> {
    if ne == [] then []
    else
      var g := Groups(ne[..|ne| - 1]);
      var c := ne[|ne| - 1];
      if g != [] && !Closed(Last(g)) then g[..|g| - 1] + [Last(g) + [c]]
      else g + [[c]]
  }

  /** Each group becomes one unit, its paragraphs a space apart. */
  function JoinGroups(g: seq<seq<string>>): (units: seq<string>)
    ensures |units| == |g|
    ensures forall i | 0 <= i < |g| :: units[i] == Join(g[i], " ")
  {
    seq(|g|, i requires 0 <= i < |g| => Join(g[i], " "))
  }

  /** The units of the merge pass (`merged_paragraphs`). */
  function MergedUnits(cs: seq<string>): seq<string> {
    JoinGroups(Groups(NonEmpty(cs)))
  }

  /** The grouping keeps the paragraphs and their order. */
  lemma {:induction false} GroupsConcat(ne: seq<string>)
    ensures Concat(Groups(ne)) == ne
  {
    if ne != [] {
      var init, c := ne[..|ne| - 1], ne[|ne| - 1];
      var g := Groups(init);
      GroupsConcat(init);
      GroupsAppend(init, c);
      assert init + [c] == ne;
      if g != [] && !Closed(Last(g)) {
        var n := |g| - 1;
        var front, open := g[..n], g[n];
        ConcatOne(front, open + [c]);
        assert Concat(g) == Concat(front) + open;
        AppendAssoc(Concat(front), open, [c]);
      } else {
        ConcatOne(g, [c]);
      }
    }
  }

  /** Groups are non-empty; every group but the last is closed; inside a
      group only the last paragraph may end a sentence. */
  predicate WellGrouped(g: seq<seq<string>>) {
    && (forall i | 0 <= i < |g| :: g[i] != [])
    && (forall i | 0 <= i < |g| - 1 :: Closed(g[i]))
    && (forall i, j | 0 <= i < |g| && 0 <= j < |g[i]| - 1 :: !EndsWithTerminal(g[i][j]))
  }

  lemma {:induction false} GroupsWellGrouped(ne: seq<string>)
    ensures WellGrouped(Groups(ne))
  {
    if ne != [] {
      var init, c := ne[..|ne| - 1], ne[|ne| - 1];
      var g := Groups(init);
      GroupsWellGrouped(init);
      var r := Groups(ne);
      var n := |g| - 1;
      if g != [] && !Closed(Last(g)) {
        assert r == g[..n] + [g[n] + [c]];
        assert |r| == |g|;
        forall i | 0 <= i < n ensures r[i] == g[i] { }
        forall i, j | 0 <= i < |r| && 0 <= j < |r[i]| - 1 ensures !EndsWithTerminal(r[i][j]) {
          if i == n && j == |g[n]| - 1 {
            assert r[i][j] == Last(g[n]);
          }
        }
      } else {
        assert r == g + [[c]];
        forall i | 0 <= i < |g| ensures r[i] == g[i] { }
      }
    }
  }

  /** A join of non-empty parts is non-empty and ends like its last part. */
  lemma JoinNonEmpty(parts: seq<string>, sep: string)
    requires parts != [] && forall i | 0 <= i < |parts| :: parts[i] != []
    ensures Join(parts, sep) != [] && Last(Join(parts, sep)) == Last(Last(parts))
  {
  }

  lemma {:induction false} ConcatNonEmpty(g: seq<seq<string>>)
    requires g != [] && forall i | 0 <= i < |g| :: g[i] != []
    ensures Concat(g) != []
  {
    ConcatOne(g[..|g| - 1], g[|g| - 1]);
    assert g == g[..|g| - 1] + [g[|g| - 1]];
  }

  /** Joining the units again gives back the joined paragraphs. */
  lemma {:induction false} JoinGroupsJoin(g: seq<seq<string>>)
    requires forall i | 0 <= i < |g| :: g[i] != []
    ensures Join(JoinGroups(g), " ") == Join(Concat(g), " ")
  {
    var n := |g| - 1;
    if n > 0 {
      JoinGroupsJoin(g[..n]);
      assert JoinGroups(g)[..n] == JoinGroups(g[..n]);
      assert g == g[..n] + [g[n]];
      ConcatOne(g[..n], g[n]);
      ConcatNonEmpty(g[..n]);
      JoinSplit(Concat(g[..n]), g[n], " ");
    } else if n == 0 {
      assert g == [g[0]];
      ConcatSingleton(g[0]);
      assert JoinGroups(g) == [Join(g[0], " ")];
    }
  }

  lemma {:induction false} ConcatMember<T>(g: seq<seq<T>>, i: nat, j: nat)
    requires i < |g| && j < |g[i]|
    ensures g[i][j] in Concat(g)
  {
    var n := |g| - 1;
    assert g == g[..n] + [g[n]];
    ConcatOne(g[..n], g[n]);
    if i < n {
      ConcatMember(g[..n], i, j);
    }
  }

  /** The merge pass: every unit is non-empty; every unit but the last ends
      a sentence; and the units, a space apart, are the non-empty cleaned
      paragraphs, a space apart, in their input order. */
  lemma MergeShape(cs: seq<string>)
    ensures forall i | 0 <= i < |MergedUnits(cs)| :: MergedUnits(cs)[i] != []
    ensures forall i | 0 <= i < |MergedUnits(cs)| - 1 :: EndsWithTerminal(MergedUnits(cs)[i])
    ensures Join(MergedUnits(cs), " ") == Join(NonEmpty(cs), " ")
  {
    var ne := NonEmpty(cs);
    var g := Groups(ne);
    GroupsConcat(ne);
    GroupsWellGrouped(ne);
    var units := MergedUnits(cs);
    forall i, j | 0 <= i < |g| && 0 <= j < |g[i]| ensures g[i][j] != [] {
      ConcatMember(g, i, j);
    }
    forall i | 0 <= i < |g| ensures units[i] != [] && Last(units[i]) == Last(Last(g[i])) {
      JoinNonEmpty(g[i], " ");
    }
    JoinGroupsJoin(g);
  }

  // ---------------------------------------------------------------------
  // Cutting long units

  /** The pieces a unit becomes: a unit of at most `max_words` words stays as
      it is; a longer one loses its stripped head up to the split point (kept
      when not blank) and the stripped rest is cut again. */
  function SplitPieces(t: string, maxWords: nat, ideal: nat): seq<string>
    requires ideal >= 1
    decreases |t|
  {
    if WordCount(t) <= maxWords then (if t == [] then [] else [t])
    else
      var sp := SplitPoint(t, ideal);
      var seg := Strip(t[..sp]);
      var rest := Strip(t[sp..]);
      (if seg == [] then [] else [seg]) + SplitPieces(rest, maxWords, ideal)
  }

  /** A piece is short: at most `ideal + 50` characters or at most
      `max_words` words. */
  predicate Bounded(p: string, maxWords: nat, ideal: nat) {
    |p| <= ideal + 50 || WordCount(p) <= maxWords
  }

  /** Every piece is non-empty and bounded. */
  predicate AllBounded(ps: seq<string>, maxWords: nat, ideal: nat) {
    forall i | 0 <= i < |ps| :: ps[i] != [] && Bounded(ps[i], maxWords, ideal)
  }

  /** Every piece but the last has at most `ideal + 50` characters. */
  predicate ShortButLast(ps: seq<string>, ideal: nat) {
    forall i | 0 <= i < |ps| - 1 :: |ps[i]| <= ideal + 50
  }

  predicate AllStripped(ps: seq<string>) {
    forall i | 0 <= i < |ps| :: IsStripped(ps[i])
  }

  lemma AppendPieces(a: seq<string>, b: seq<string>, maxWords: nat, ideal: nat)
    requires AllBounded(a, maxWords, ideal) && AllBounded(b, maxWords, ideal)
    ensures AllBounded(a + b, maxWords, ideal)
    ensures AllStripped(a) && AllStripped(b) ==> AllStripped(a + b)
    ensures (forall i | 0 <= i < |a| :: |a[i]| <= ideal + 50) && ShortButLast(b, ideal) ==> ShortButLast(a + b, ideal)
  {
    forall i | 0 <= i < |a + b| ensures (a + b)[i] == if i < |a| then a[i] else b[i - |a|] { }
  }

  /** One cut of a long unit: the stripped head, when not blank, then the
      pieces of the stripped rest. */
  lemma SplitPiecesStep(t: string, maxWords: nat, ideal: nat)
    requires ideal >= 1 && WordCount(t) > maxWords
    ensures var sp := SplitPoint(t, ideal);
      SplitPieces(t, maxWords, ideal)
      == (if Strip(t[..sp]) == [] then [] else [Strip(t[..sp])]) + SplitPieces(Strip(t[sp..]), maxWords, ideal)
  {
  }

  /** The stripped head of a cut is a well-formed piece list of its own. */
  lemma HeadPiece(pre: string, maxWords: nat, ideal: nat)
    requires |pre| <= ideal + 50
    ensures var seg := Strip(pre);
      var head := if seg == [] then [] else [seg];
      AllBounded(head, maxWords, ideal) && AllStripped(head) && forall i | 0 <= i < |head| :: |head[i]| <= ideal + 50
  {
    OnePiece(Strip(pre), maxWords, ideal);
  }

  lemma OnePiece(seg: string, maxWords: nat, ideal: nat)
    requires |seg| <= ideal + 50 && IsStripped(seg)
    ensures var head := if seg == [] then [] else [seg];
      AllBounded(head, maxWords, ideal) && AllStripped(head) && forall i | 0 <= i < |head| :: |head[i]| <= ideal + 50
  {
    if seg != [] {
      assert Bounded(seg, maxWords, ideal);
    }
  }

  /** What cutting guarantees: pieces are non-empty and bounded; every piece
      but the last is a cut piece of at most `ideal + 50` characters; once a
      unit is cut (or if it was stripped), every piece is stripped. */
  lemma {:induction false} SplitPiecesShape(t: string, maxWords: nat, ideal: nat)
    requires ideal >= 1
    ensures AllBounded(SplitPieces(t, maxWords, ideal), maxWords, ideal)
    ensures ShortButLast(SplitPieces(t, maxWords, ideal), ideal)
    ensures WordCount(t) > maxWords || IsStripped(t) ==> AllStripped(SplitPieces(t, maxWords, ideal))
    decreases |t|
  {
    if WordCount(t) > maxWords {
      var sp := SplitPoint(t, ideal);
      var seg := Strip(t[..sp]);
      var rest := Strip(t[sp..]);
      var head := if seg == [] then [] else [seg];
      HeadPiece(t[..sp], maxWords, ideal);
      SplitPiecesShape(rest, maxWords, ideal);
      SplitPiecesStep(t, maxWords, ideal);
      AppendPieces(head, SplitPieces(rest, maxWords, ideal), maxWords, ideal);
    }
  }

  /** Cutting loses, adds and moves no non-whitespace character. */
  lemma {:induction false} SplitPiecesSqueeze(t: string, maxWords: nat, ideal: nat)
    requires ideal >= 1
    ensures Squeeze(Concat(SplitPieces(t, maxWords, ideal))) == Squeeze(t)
    decreases |t|
  {
    if WordCount(t) <= maxWords {
      if t != [] {
        ConcatSingleton(t);
      }
    } else {
      var sp := SplitPoint(t, ideal);
      var seg := Strip(t[..sp]);
      var rest := Strip(t[sp..]);
      var head := if seg == [] then [] else [seg];
      var tail := SplitPieces(rest, maxWords, ideal);
      SplitPiecesSqueeze(rest, maxWords, ideal);
      SplitPiecesStep(t, maxWords, ideal);
      if seg != [] { ConcatSingleton(seg); }
      SqueezeParts(t[..sp], t[sp..], head, tail);
      SplitAt(t, sp);
    }
  }

  /** All units, each cut into pieces (`final_segments`). */
  function SplitAll(units: seq<string>, maxWords: nat, ideal: nat): seq<string>
    requires ideal >= 1
  {
    if units == [] then []
    else SplitAll(units[..|units| - 1], maxWords, ideal) + SplitPieces(units[|units| - 1], maxWords, ideal)
  }

  /** `process_paragraphs(paragraphs, normalizer, max_words, ideal_words)`
      for a present normaliser. */
  function Segments(paragraphs: seq<string>, normalize: string -> string, maxWords: nat, ideal: nat): seq<string>
    requires ideal >= 1
  {
    SplitAll(MergedUnits(Cleaned(paragraphs, normalize)), maxWords, ideal)
  }

  lemma {:induction false} SplitAllShape(units: seq<string>, maxWords: nat, ideal: nat)
    requires ideal >= 1
    ensures AllBounded(SplitAll(units, maxWords, ideal), maxWords, ideal)
  {
    if units != [] {
      var n := |units| - 1;
      SplitAllShape(units[..n], maxWords, ideal);
      SplitPiecesShape(units[n], maxWords, ideal);
      AppendPieces(SplitAll(units[..n], maxWords, ideal), SplitPieces(units[n], maxWords, ideal), maxWords, ideal);
    }
  }

  lemma {:induction false} SplitAllSqueeze(units: seq<string>, maxWords: nat, ideal: nat)
    requires ideal >= 1
    ensures Squeeze(Concat(SplitAll(units, maxWords, ideal))) == Squeeze(Concat(units))
  {
    if units != [] {
      var n := |units| - 1;
      var a, b := SplitAll(units[..n], maxWords, ideal), SplitPieces(units[n], maxWords, ideal);
      SplitAllSqueeze(units[..n], maxWords, ideal);
      SplitPiecesSqueeze(units[n], maxWords, ideal);
      ConcatAppend(a, b);
      SqueezeAppend(Concat(a), Concat(b));
      assert units == units[..n] + [units[n]];
      ConcatOne(units[..n], units[n]);
      SqueezeAppend(Concat(units[..n]), units[n]);
    }
  }

  lemma {:induction false} SqueezeNonEmpty(cs: seq<string>)
    ensures Squeeze(Concat(NonEmpty(cs))) == Squeeze(Concat(cs))
  {
    if cs != [] {
      var n := |cs| - 1;
      SqueezeNonEmpty(cs[..n]);
      assert cs == cs[..n] + [cs[n]];
      ConcatOne(cs[..n], cs[n]);
      SqueezeAppend(Concat(cs[..n]), cs[n]);
      if cs[n] != [] {
        ConcatOne(NonEmpty(cs[..n]), cs[n]);
        SqueezeAppend(Concat(NonEmpty(cs[..n])), cs[n]);
      } else {
        assert NonEmpty(cs) == NonEmpty(cs[..n]);
        assert Squeeze(cs[n]) == [];
      }
    }
  }

  /** End to end: every segment is non-empty and has at most `ideal + 50`
      characters or at most `max_words` words, and the segments hold the
      non-whitespace characters of the cleaned paragraphs, in order. */
  lemma SegmentsShape(paragraphs: seq<string>, normalize: string -> string, maxWords: nat, ideal: nat)
    requires ideal >= 1
    ensures AllBounded(Segments(paragraphs, normalize, maxWords, ideal), maxWords, ideal)
    ensures Squeeze(Concat(Segments(paragraphs, normalize, maxWords, ideal)))
         == Squeeze(Concat(Cleaned(paragraphs, normalize)))
  {
    var cs := Cleaned(paragraphs, normalize);
    var units := MergedUnits(cs);
    SplitAllShape(units, maxWords, ideal);
    SplitAllSqueeze(units, maxWords, ideal);
    MergeShape(cs);
    SqueezeJoin(units);
    SqueezeJoin(NonEmpty(cs));
    SqueezeNonEmpty(cs);
  }

  /** The error `process_paragraphs` raises without a normaliser. */
  const NoNormalizer := "ValueError: Normalizer cannot be None in process_paragraphs"

  /** `process_paragraphs`; a missing normaliser is an error. */
  method ProcessParagraphs(paragraphs: seq<string>, normalizer: Option<string -> string>, maxWords: nat, idealWords: nat)
    returns (r: Result<seq<string>, string>)
    requires idealWords >= 1
    ensures normalizer.None? ==> r == Err(NoNormalizer)
    ensures normalizer.Some? ==> r == Ok(Segments(paragraphs, normalizer.value, maxWords, idealWords))
  {
    if normalizer.None? {
      return Err(NoNormalizer);
    }
    var merged := MergeParagraphs(paragraphs, normalizer.value);
    var finalSegments := CutAll(merged, maxWords, idealWords);
    return Ok(finalSegments);
  }

  /** The second loop of `process_paragraphs`: every merged unit, cut. */
  method CutAll(merged: seq<string>, maxWords: nat, idealWords: nat) returns (finalSegments: seq<string>)
    requires idealWords >= 1
    requires forall i | 0 <= i < |merged| :: merged[i] != []
    ensures finalSegments == SplitAll(merged, maxWords, idealWords)
  {
    finalSegments := [];
    for u := 0 to |merged|
      invariant finalSegments == SplitAll(merged[..u], maxWords, idealWords)
    {
      var pieces := CutUnit(merged[u], maxWords, idealWords);
      assert merged[..u + 1][..u] == merged[..u];
      finalSegments := finalSegments + pieces;
    }
    assert merged[..|merged|] == merged;
  }

  /** The first loop of `process_paragraphs`: the `buffer` collects cleaned
      paragraphs until one ends a sentence, and is then moved to the merged
      list; a last open buffer is moved too. */
  method MergeParagraphs(paragraphs: seq<string>, normalize: string -> string) returns (merged: seq<string>)
    ensures merged == MergedUnits(Cleaned(paragraphs, normalize))
    ensures forall i | 0 <= i < |merged| :: merged[i] != []
  {
    ghost var cs := Cleaned(paragraphs, normalize);
    merged := [];
    var buffer := "";
    for k := 0 to |paragraphs|
      invariant MergeInvariant(cs[..k], merged, buffer)
    {
      var cleanedPara := normalize(Strip(paragraphs[k]));
      TakeOneMore(cs, k);
      if cleanedPara == [] {
        MergeSkip(cs[..k], merged, buffer);
        continue;
      }
      MergeStep(cs[..k], merged, buffer, cleanedPara);
      buffer := if buffer != [] then buffer + " " + cleanedPara else cleanedPara;
      if EndsWithTerminal(buffer) {
        merged := merged + [buffer];
        buffer := "";
      }
    }
    assert cs[..|paragraphs|] == cs;
    MergeFinish(cs, merged, buffer);
    if buffer != [] {
      merged := merged + [buffer];
    }
    MergeShape(cs);
  }

  /** The second loop's body for one merged unit: a short unit is kept; a
      long one is cut at split points until the rest is short, keeping the
      non-blank stripped heads and a non-empty rest. */
  method CutUnit(current: string, maxWords: nat, idealWords: nat) returns (pieces: seq<string>)
    requires idealWords >= 1 && current != []
    ensures pieces == SplitPieces(current, maxWords, idealWords)
  {
    if WordCount(current) <= maxWords {
      return [current];
    }
    pieces := [];
    var temp := current;
    while WordCount(temp) > maxWords
      invariant SplitPieces(current, maxWords, idealWords) == pieces + SplitPieces(temp, maxWords, idealWords)
      decreases |temp|
    {
      pieces, temp := CutOnce(pieces, temp, maxWords, idealWords);
    }
    if temp != [] {
      pieces := pieces + [temp];
    }
  }

  /** One cut of a long text: the stripped head before the best split point
      is kept when it is not blank, and the stripped rest is cut further. */
  method CutOnce(pieces: seq<string>, temp: string, maxWords: nat, idealWords: nat)
    returns (pieces': seq<string>, rest: string)
    requires idealWords >= 1 && WordCount(temp) > maxWords
    ensures pieces' + SplitPieces(rest, maxWords, idealWords) == pieces + SplitPieces(temp, maxWords, idealWords)
    ensures |rest| < |temp|
  {
    EndCharsTerminal();
    var splitPoint := FindBestSplitPoint(temp, idealWords, EndChars);
    var segment := Strip(temp[..splitPoint]);
    rest := Strip(temp[splitPoint..]);
    assert SplitPieces(temp, maxWords, idealWords)
        == (if segment == [] then [] else [segment]) + SplitPieces(rest, maxWords, idealWords) by {
      SplitPiecesStep(temp, maxWords, idealWords);
    }
    ghost var head := if segment == [] then [] else [segment];
    ghost var tail := SplitPieces(rest, maxWords, idealWords);
    pieces' := if segment != [] then pieces + [segment] else pieces;
    assert pieces' == pieces + head;
    AppendAssoc(pieces, head, tail);
  }

  /** The state of the merge pass after a prefix `cs` of the cleaned
      paragraphs: the closed groups are in `merged`, and `buffer` holds the
      open group (a group not yet ended by a terminal), or is empty. */
  ghost predicate MergeInvariant(cs: seq<string>, merged: seq<string>, buffer: string) {
    var g := Groups(NonEmpty(cs));
    if buffer == [] then
      merged == JoinGroups(g)
      && (g == [] || (g[|g| - 1] != [] && EndsWithTerminal(g[|g| - 1][|g[|g| - 1]| - 1])))
    else
      g != [] && g[|g| - 1] != []
      && merged == JoinGroups(g[..|g| - 1])
      && buffer == Join(g[|g| - 1], " ")
      && !EndsWithTerminal(g[|g| - 1][|g[|g| - 1]| - 1])
  }

  lemma NonEmptyAppend(cs: seq<string>, c: string)
    ensures NonEmpty(cs + [c]) == NonEmpty(cs) + (if c == [] then [] else [c])
  {
    assert (cs + [c])[..|cs|] == cs;
  }

  lemma GroupsAppend(ne: seq<string>, c: string)
    ensures var g := Groups(ne);
      Groups(ne + [c]) == if g != [] && !Closed(Last(g)) then g[..|g| - 1] + [Last(g) + [c]] else g + [[c]]
  {
    assert (ne + [c])[..|ne|] == ne;
  }

  /** A cleaned paragraph that is empty leaves the merge state as it is. */
  lemma MergeSkip(cs: seq<string>, merged: seq<string>, buffer: string)
    requires MergeInvariant(cs, merged, buffer)
    ensures MergeInvariant(cs + [[]], merged, buffer)
  {
    NonEmptyAppend(cs, []);
    assert NonEmpty(cs + [[]]) == NonEmpty(cs);
  }

  /** A non-empty cleaned paragraph joins the open buffer (or starts one);
      the buffer is moved to the merged list once it ends a sentence. */
  lemma MergeStep(cs: seq<string>, merged: seq<string>, buffer: string, c: string)
    requires MergeInvariant(cs, merged, buffer) && c != []
    ensures var b := if buffer != [] then buffer + " " + c else c;
      if EndsWithTerminal(b) then MergeInvariant(cs + [c], merged + [b], "")
      else MergeInvariant(cs + [c], merged, b)
  {
    NonEmptyAppend(cs, c);
    GroupsAppend(NonEmpty(cs), c);
    if buffer != [] {
      MergeExtend(NonEmpty(cs), merged, buffer, c);
    } else {
      MergeOpen(NonEmpty(cs), merged, c);
    }
  }

  /** The open group grows by one paragraph. */
  lemma MergeExtend(ne: seq<string>, merged: seq<string>, buffer: string, c: string)
    requires c != [] && buffer != []
    requires var g := Groups(ne);
      && g != [] && g[|g| - 1] != []
      && merged == JoinGroups(g[..|g| - 1])
      && buffer == Join(g[|g| - 1], " ")
      && !EndsWithTerminal(g[|g| - 1][|g[|g| - 1]| - 1])
    requires var g := Groups(ne);
      Groups(ne + [c]) == g[..|g| - 1] + [Last(g) + [c]]
    ensures var b := buffer + " " + c;
      var g' := Groups(ne + [c]);
      && g' != [] && Last(g') != [] && Last(Last(g')) == c
      && JoinGroups(g') == merged + [b]
      && merged == JoinGroups(g'[..|g'| - 1])
      && b == Join(Last(g'), " ")
  {
    var g := Groups(ne);
    var g' := Groups(ne + [c]);
    var n := |g| - 1;
    JoinAppend(g[n], c, " ");
    assert g'[..n] == g[..n];
    assert JoinGroups(g') == JoinGroups(g[..n]) + [Join(g'[n], " ")];
  }

  /** A paragraph after a closed group opens a new group. */
  lemma MergeOpen(ne: seq<string>, merged: seq<string>, c: string)
    requires c != []
    requires var g := Groups(ne);
      merged == JoinGroups(g)
      && (g == [] || (g[|g| - 1] != [] && EndsWithTerminal(g[|g| - 1][|g[|g| - 1]| - 1])))
    ensures var g' := Groups(ne + [c]);
      && g' == Groups(ne) + [[c]]
      && JoinGroups(g') == merged + [c]
      && merged == JoinGroups(g'[..|g'| - 1])
  {
    var g := Groups(ne);
    var g' := Groups(ne + [c]);
    GroupsAppend(ne, c);
    assert g' == g + [[c]];
    assert g'[..|g|] == g;
    assert JoinGroups(g') == JoinGroups(g) + [c];
  }

  /** Moving a last open buffer completes the merged units. */
  lemma MergeFinish(cs: seq<string>, merged: seq<string>, buffer: string)
    requires MergeInvariant(cs, merged, buffer)
    ensures (if buffer != [] then merged + [buffer] else merged) == MergedUnits(cs)
  {
    var g := Groups(NonEmpty(cs));
    if buffer != [] {
      var n := |g| - 1;
      assert g == g[..n] + [g[n]];
      assert JoinGroups(g) == JoinGroups(g[..n]) + [Join(g[n], " ")];
    }
  }
}
