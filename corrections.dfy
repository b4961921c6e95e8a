/** `make_corrections_fast`: one pass of `re.sub` with the pattern
    `\b(k1|k2|...)\b` built from the escaped keys of the correction table,
    replacing each match `m` by `table[m]`.

    The regular-expression engine is modelled directly: the scan goes left
    to right; at each position the keys are tried in the table's order and
    the first key that occurs there literally with a word boundary on both
    sides is the match; the replacement is emitted and the scan resumes after
    the matched text, so replaced text is never scanned again. A position
    where no key matches copies its character. `\b` is decided by the
    word-character predicate `isWord` (Python's `\w`), with the positions
    outside the text counting as non-word characters. */
module Corrections {
  import opened Wrappers
  import opened Strings

  /** The correction table in dict order: (incorrect, correct) pairs. */
  type Lexicon = seq<(string, string)>

  /** A dict has distinct keys; keys are non-empty. */
  predicate WellFormed(lex: Lexicon) {
    && (forall i | 0 <= i < |lex| :: lex[i].0 != [])
    && (forall i, j | 0 <= i < j < |lex| :: lex[i].0 != lex[j].0)
  }

  predicate IsWordAt(isWord: char -> bool, t: string, i: int) {
    0 <= i < |t| && isWord(t[i])
  }

  /** `\b` at position `i` of `t`. */
  predicate Boundary(isWord: char -> bool, t: string, i: int) {
    IsWordAt(isWord, t, i - 1) != IsWordAt(isWord, t, i)
  }

  /** `\bkey\b` matches at `i`. */
  predicate WholeWordAt(isWord: char -> bool, t: string, key: string, i: int) {
    OccursAt(t, key, i) && Boundary(isWord, t, i) && Boundary(isWord, t, i + |key|)
  }

  /** The alternative the engine picks at `i`: the first key, in table order,
      that matches there as a whole word. */
  function FirstMatch(isWord: char -> bool, t: string, i: nat, lex: Lexicon): (r: Option<nat>)
    ensures r.Some? ==> r.value < |lex|
  {
    if lex == [] then None
    else if WholeWordAt(isWord, t, lex[0].0, i) then Some(0)
    else
      match FirstMatch(isWord, t, i, lex[1..])
      case Some(j) => Some(j + 1)
      case None => None
  }

  /** The key picked matches as a whole word and no earlier key does; when
      none is picked, no key matches. */
  lemma {:induction false} FirstMatchSpec(isWord: char -> bool, t: string, i: nat, lex: Lexicon)
    ensures var r := FirstMatch(isWord, t, i, lex);
      && (r.Some? ==> WholeWordAt(isWord, t, lex[r.value].0, i))
      && (r.Some? ==> forall j | 0 <= j < r.value :: !WholeWordAt(isWord, t, lex[j].0, i))
      && (r.None? ==> forall j | 0 <= j < |lex| :: !WholeWordAt(isWord, t, lex[j].0, i))
  {
    if lex != [] && !WholeWordAt(isWord, t, lex[0].0, i) {
      FirstMatchSpec(isWord, t, i, lex[1..]);
      forall j | 1 <= j < |lex| ensures lex[j] == lex[1..][j - 1] {
      }
    }
  }

  /** The output `re.sub` produces for `t[i..]`. */
  function Scan(isWord: char -> bool, t: string, i: nat, lex: Lexicon): string
    requires WellFormed(lex)
    decreases |t| - i
  {
    if i >= |t| then [] else Emit(isWord, t, i, lex) + Scan(isWord, t, Resume(isWord, t, i, lex), lex)
  }

  /** What the scan writes at `i`: the replacement of the matching key, or
      the character itself. */
  function Emit(isWord: char -> bool, t: string, i: nat, lex: Lexicon): string
    requires i < |t|
  {
    match FirstMatch(isWord, t, i, lex)
    case Some(k) => lex[k].1
    case None => [t[i]]
  }

  /** Where the scan resumes after position `i`: past the matched key, or
      past the copied character. */
  function Resume(isWord: char -> bool, t: string, i: nat, lex: Lexicon): (e: nat)
    requires WellFormed(lex) && i < |t|
    ensures i < e <= |t|
  {
    FirstMatchSpec(isWord, t, i, lex);
    match FirstMatch(isWord, t, i, lex)
    case Some(k) => i + |lex[k].0|
    case None => i + 1
  }

  /** `make_corrections_fast(text, correction_dict)` */
  function MakeCorrections(text: string, lex: Lexicon, isWord: char -> bool): (r: string)
    requires WellFormed(lex)
    ensures lex == [] || text == [] ==> r == text
  {
    if lex == [] || text == [] then text else Scan(isWord, text, 0, lex)
  }

  /** Stretches where no key matches as a whole word are copied unchanged. */
  lemma {:induction false} ScanCopies(isWord: char -> bool, t: string, i: nat, j: nat, lex: Lexicon)
    requires WellFormed(lex) && i <= j <= |t|
    requires forall m | i <= m < j :: FirstMatch(isWord, t, m, lex).None?
    ensures Scan(isWord, t, i, lex) == t[i..j] + Scan(isWord, t, j, lex)
    decreases j - i
  {
    if i < j {
      ScanCopies(isWord, t, i + 1, j, lex);
      ScanAtNoMatch(isWord, t, i, lex);
      SliceCons(t, i, j);
      AppendAssoc([t[i]], t[i + 1..j], Scan(isWord, t, j, lex));
    }
  }

  /** Where no key matches, the scan copies one character. */
  lemma ScanAtNoMatch(isWord: char -> bool, t: string, i: nat, lex: Lexicon)
    requires WellFormed(lex) && i < |t|
    requires FirstMatch(isWord, t, i, lex).None?
    ensures Scan(isWord, t, i, lex) == [t[i]] + Scan(isWord, t, i + 1, lex)
  {
    assert Emit(isWord, t, i, lex) == [t[i]];
    assert Resume(isWord, t, i, lex) == i + 1;
  }

  lemma SliceCons(t: string, i: nat, j: nat)
    requires i < j <= |t|
    ensures t[i..j] == [t[i]] + t[i + 1..j]
  {
  }

  /** A text in which no key occurs as a whole word comes back unchanged. */
  lemma NoMatchUnchanged(text: string, lex: Lexicon, isWord: char -> bool)
    requires WellFormed(lex)
    requires forall m, k | 0 <= m < |text| && 0 <= k < |lex| :: !WholeWordAt(isWord, text, lex[k].0, m)
    ensures MakeCorrections(text, lex, isWord) == text
  {
    if lex != [] && text != [] {
      forall m | 0 <= m < |text| ensures FirstMatch(isWord, text, m, lex).None? {
        FirstMatchSpec(isWord, text, m, lex);
      }
      ScanCopies(isWord, text, 0, |text|, lex);
    }
  }

  /** Under an identity table, one step of the scan copies `t[i..Resume]`. */
  lemma IdentityStep(isWord: char -> bool, t: string, i: nat, lex: Lexicon)
    requires WellFormed(lex) && i < |t|
    requires forall k | 0 <= k < |lex| :: lex[k].1 == lex[k].0
    ensures Scan(isWord, t, i, lex) == t[i..Resume(isWord, t, i, lex)] + Scan(isWord, t, Resume(isWord, t, i, lex), lex)
  {
    FirstMatchSpec(isWord, t, i, lex);
    assert Emit(isWord, t, i, lex) == t[i..Resume(isWord, t, i, lex)];
  }

  /** A table that maps every key to itself changes nothing. */
  lemma {:induction false} IdentityScan(isWord: char -> bool, t: string, i: nat, lex: Lexicon)
    requires WellFormed(lex) && i <= |t|
    requires forall k | 0 <= k < |lex| :: lex[k].1 == lex[k].0
    ensures Scan(isWord, t, i, lex) == t[i..]
    decreases |t| - i
  {
    if i < |t| {
      var e := Resume(isWord, t, i, lex);
      IdentityStep(isWord, t, i, lex);
      IdentityScan(isWord, t, e, lex);
      SliceJoin(t, i, e);
    }
  }

  lemma IdentityUnchanged(text: string, lex: Lexicon, isWord: char -> bool)
    requires WellFormed(lex)
    requires forall k | 0 <= k < |lex| :: lex[k].1 == lex[k].0
    ensures MakeCorrections(text, lex, isWord) == text
  {
    if lex != [] && text != [] {
      IdentityScan(isWord, text, 0, lex);
    }
  }

  /** A whole-word match is replaced and the scan resumes right after it. */
  lemma ScanReplaces(isWord: char -> bool, t: string, i: nat, lex: Lexicon, k: nat)
    requires WellFormed(lex) && k < |lex|
    requires WholeWordAt(isWord, t, lex[k].0, i)
    requires forall j | 0 <= j < k :: !WholeWordAt(isWord, t, lex[j].0, i)
    ensures Scan(isWord, t, i, lex) == lex[k].1 + Scan(isWord, t, i + |lex[k].0|, lex)
  {
    var key, fix := lex[k].0, lex[k].1;
    assert key != [];
    FirstMatchIs(isWord, t, i, lex, k);
    ScanAtMatch(isWord, t, i, lex, k);
  }

  lemma ScanAtMatch(isWord: char -> bool, t: string, i: nat, lex: Lexicon, k: nat)
    requires WellFormed(lex) && k < |lex| && i < |t|
    requires FirstMatch(isWord, t, i, lex) == Some(k)
    ensures Scan(isWord, t, i, lex) == lex[k].1 + Scan(isWord, t, i + |lex[k].0|, lex)
  {
    assert Emit(isWord, t, i, lex) == lex[k].1;
    assert Resume(isWord, t, i, lex) == i + |lex[k].0|;
  }

  /** The engine picks the first key in table order that matches. */
  lemma FirstMatchIs(isWord: char -> bool, t: string, i: nat, lex: Lexicon, k: nat)
    requires k < |lex|
    requires WholeWordAt(isWord, t, lex[k].0, i)
    requires forall j | 0 <= j < k :: !WholeWordAt(isWord, t, lex[j].0, i)
    ensures FirstMatch(isWord, t, i, lex) == Some(k)
  {
    FirstMatchSpec(isWord, t, i, lex);
  }

  predicate IsAsciiLetter(c: char) {
    ('a' <= c <= 'z') || ('A' <= c <= 'Z')
  }

  /** In "cat category" the "cat" inside "category" is not a whole word. */
  lemma CategoryNoMatch(t: string, lex: Lexicon, m: nat)
    requires t == "cat category" && lex == [("cat", "dog")]
    requires 3 <= m < |t|
    ensures FirstMatch(IsAsciiLetter, t, m, lex).None?
  {
    assert lex[1..] == [];
    if m == 4 {
      assert t[6] == 't' && t[7] == 'e';
      assert !Boundary(IsAsciiLetter, t, 7);
    } else if m + 3 <= |t| {
      assert t[m] != 'c';
      assert t[m..m + 3][0] == t[m];
    }
  }

  /** Only whole words are corrected: with {"cat": "dog"}, "cat category"
      becomes "dog category". */
  lemma WholeWordsOnly(t: string, lex: Lexicon)
    requires t == "cat category" && lex == [("cat", "dog")]
    ensures WellFormed(lex) && MakeCorrections(t, lex, IsAsciiLetter) == "dog category"
  {
    CatFirst(t, lex);
    ScanReplaces(IsAsciiLetter, t, 0, lex, 0);
    CategoryKept(t, lex);
    assert "dog" + " category" == "dog category";
  }

  /** "cat" stands as a whole word at the start of "cat category". */
  lemma CatFirst(t: string, lex: Lexicon)
    requires t == "cat category" && lex == [("cat", "dog")]
    ensures WellFormed(lex) && WholeWordAt(IsAsciiLetter, t, lex[0].0, 0)
  {
    assert t[..3] == "cat" && t[3] == ' ';
  }

  /** After the first word, the rest of "cat category" is copied as it is. */
  lemma CategoryKept(t: string, lex: Lexicon)
    requires t == "cat category" && lex == [("cat", "dog")]
    ensures WellFormed(lex) && Scan(IsAsciiLetter, t, 3, lex) == " category"
  {
    CategoryNeverMatches(t, lex);
    ScanCopies(IsAsciiLetter, t, 3, |t|, lex);
    var rest := t[3..|t|];
    assert Scan(IsAsciiLetter, t, |t|, lex) == [];
    assert rest + [] == rest;
    assert |rest| == 9 && forall k | 0 <= k < 9 :: rest[k] == " category"[k];
  }

  lemma CategoryNeverMatches(t: string, lex: Lexicon)
    requires t == "cat category" && lex == [("cat", "dog")]
    ensures forall m | 3 <= m < |t| :: FirstMatch(IsAsciiLetter, t, m, lex).None?
  {
    forall m | 3 <= m < |t| ensures FirstMatch(IsAsciiLetter, t, m, lex).None? {
      CategoryNoMatch(t, lex, m);
    }
  }

  /** One pass: a replacement is not corrected again, so with
      {"a": "b", "b": "c"} the text "a" becomes "b", not "c". */
  lemma SinglePass(t: string, lex: Lexicon)
    requires t == "a" && lex == [("a", "b"), ("b", "c")]
    ensures WellFormed(lex) && MakeCorrections(t, lex, IsAsciiLetter) == "b"
  {
    assert WholeWordAt(IsAsciiLetter, t, "a", 0);
    ScanReplaces(IsAsciiLetter, t, 0, lex, 0);
  }
}
