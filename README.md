# Persian collocation search: a verified model

This project models the core of a desktop tool that searches a tagged corpus of
Persian text for a key phrase and its collocations. The corpus is built from
Word documents. The model covers four parts.

- **The text pipeline** (`text_processing.py`, repeated verbatim in
  `Collocation_Search.py`):
  - the lexicon corrector `make_corrections_fast`;
  - the segmenter `find_best_split_point` / `process_paragraphs`. It
    normalises paragraphs, merges them into units that end with one of
    `. ! ? : ؟`, and cuts any unit longer than `max_words` words at a
    character offset chosen around `ideal_words`.
- **The search engine of the current application** (`Collocation_Search.py`):
  - the neighbour filters and the role table `pos_map` / `reverse_pos_map`;
  - the two search types. The keyword-and-neighbours search slides a window
    the length of the tokenised phrase over every tagged segment. The
    substring search counts the first token of each segment that contains the
    phrase;
  - the provenance maps that record where each result was found;
  - the result click, the bidi reorder of a source paragraph around the
    highlighted phrase, the results table and its column sort;
  - the input checks of `_start_search`.
- **The older application** (`app_ui.py`): the same neighbour search with a
  counter key that drops the tag, its own input checks, result click, column
  sort and highlight reordering.
- **Shared building blocks**: `collections.Counter` with `most_common`,
  literal phrase splitting in the manner of `re.split` / `re.finditer`, a
  stable sort with `reverse`, and the deduplicated, sorted provenance list.

External services are function-typed parameters:

- hazm's `Normalizer.normalize`: `normalize: string -> string`;
- `word_tokenize`: `tokenize: string -> seq<string>`;
- the regex `\w` class behind `\b`: `isWord: char -> bool`.

The corpus is a `seq<Segment>`, one `(sentence, tagged tokens, source)` entry
per sentence.

**Style.** State that the source changes in place is modelled as classes with
the same fields: `CollocationSearch.App` and `LegacyApp.App`. Their loops are
methods with invariants. Each loop is proved equal to a specification function
over the corpus, and the properties the applications promise are lemmas about
those functions.

**Structure.** Both searches are specified by the sequence of neighbours they
record, in their loops' order (`Corpus.Events`). The counters are tallies of
that sequence and the provenance map is its fold (`NeighbourScan`). This is
what lets the model prove that counts and recorded sources always agree.

## Model

| member | source | states |
|---|---|---|
| Corrections.MakeCorrections | text_processing.py:34-40 | an empty correction table or an empty text returns the text unchanged |
| Corrections.FirstMatchSpec | text_processing.py:39-40 | at a position, the alternation picks the first key in table order that occurs there as a whole word (a `\b` on both sides); if no key does, nothing is picked |
| Corrections.FirstMatchIs | text_processing.py:39-40 | a key that matches as a whole word, with no earlier key matching, is the one picked |
| Corrections.Resume | text_processing.py:40 | the scan always advances, and never past the end of the text |
| Corrections.ScanReplaces | text_processing.py:39-40 | a whole-word match is replaced by its correction, and the scan resumes right after the matched text, so the replacement is never rescanned |
| Corrections.ScanAtMatch | text_processing.py:40 | the key picked at a position is replaced and the scan continues after it |
| Corrections.ScanCopies | text_processing.py:40 | a stretch where no key matches is copied character for character |
| Corrections.ScanAtNoMatch | text_processing.py:40 | where no key matches, exactly one character is copied |
| Corrections.NoMatchUnchanged | text_processing.py:34-40 | a text in which no key occurs as a whole word comes back unchanged |
| Corrections.IdentityScan | text_processing.py:40 | under a table that maps every key to itself, the scan of any suffix reproduces it |
| Corrections.IdentityUnchanged | text_processing.py:34-40 | a table that maps every key to itself changes no text |
| Corrections.WholeWordsOnly | text_processing.py:39-40 | with {"cat": "dog"}, "cat category" becomes "dog category": a key inside a longer word is not corrected |
| Corrections.CategoryNoMatch | text_processing.py:39 | no position inside "category" is a whole-word match of "cat" |
| Corrections.SinglePass | text_processing.py:40 | with {"a": "b", "b": "c"}, "a" becomes "b" and not "c": one pass, no rescanning |
| Segmenter.EndCharsTerminal | text_processing.py:45 | the iterated `end_chars` are exactly the five terminals |
| Segmenter.LastTerminal | text_processing.py:48-55 | the result is -1 or a terminal's index below the limit, and no terminal follows it there (the maximum of the per-character `rfind`s) |
| Segmenter.LastTerminalUnique | text_processing.py:48-55 | those three properties determine the index |
| Segmenter.SplitPoint | text_processing.py:42-72 | the split point is at most the text's length and at most `ideal_pos + 50`; for a non-empty text and `ideal_pos >= 1` it is at least 1 |
| Segmenter.SplitPointCases | text_processing.py:48-72 | if a terminal within the first `ideal_pos + 50` characters lies past `ideal_pos / 2`, the cut comes right after the last such terminal. Failing that, if a space within the first `ideal_pos + 20` characters lies past `ideal_pos / 3`, the cut comes right after the last such space. Failing both, the cut is at `min(ideal_pos, len(text))` |
| Segmenter.FindBestSplitPoint | text_processing.py:42-72 | the loop over `end_chars` returns the split point whatever order the set is iterated in |
| Segmenter.Cleaned | text_processing.py:86-87 | definition: the paragraphs, each stripped and then normalised, in order. What the segmenter makes of them is stated by `Segmenter.MergeShape` and `Segmenter.MergeParagraphs` |
| Segmenter.NonEmpty | text_processing.py:88-89 | only non-empty cleaned paragraphs are kept |
| Segmenter.JoinGroups | text_processing.py:91 | definition: each unit is its group's paragraphs joined by single spaces. What the units satisfy is stated by `Segmenter.MergeShape` |
| Segmenter.GroupsConcat | text_processing.py:86-98 | the merge pass keeps every non-empty paragraph, in input order |
| Segmenter.GroupsWellGrouped | text_processing.py:91-95 | groups are non-empty, every group but the last ends a sentence, and inside a group only the last paragraph may end one |
| Segmenter.MergeShape | text_processing.py:86-98 | every merged unit is non-empty, and every unit but the last ends with a terminal. The units, a space apart, are the non-empty cleaned paragraphs, a space apart, in input order |
| Segmenter.MergeParagraphs | text_processing.py:84-98 | the buffer loop produces exactly the merged units, and none of them is empty |
| Segmenter.MergeSkip | text_processing.py:88-89 | an empty cleaned paragraph leaves the merge state unchanged |
| Segmenter.MergeStep | text_processing.py:91-95 | a paragraph joins the open buffer, and a buffer that ends a sentence is moved to the merged list |
| Segmenter.MergeFinish | text_processing.py:97-98 | moving the last open buffer completes the merged units |
| Segmenter.CutOnce | text_processing.py:109-116 | one cut keeps the remaining pieces the same and strictly shortens the rest, which is the loop's termination measure |
| Segmenter.CutUnit | text_processing.py:102-119 | the split loop for one unit produces exactly that unit's pieces |
| Segmenter.CutAll | text_processing.py:100-119 | the second loop produces every merged unit's pieces, in order |
| Segmenter.SplitPiecesShape | text_processing.py:102-119 | every piece is non-empty, with at most `ideal_words + 50` characters or at most `max_words` words. Every piece but the last has at most `ideal_words + 50` characters. Once a unit is cut, every piece is stripped |
| Segmenter.SplitPiecesSqueeze | text_processing.py:108-119 | cutting a unit loses, adds and reorders no non-whitespace character |
| Segmenter.SplitAllShape | text_processing.py:100-119 | every final segment is non-empty and bounded in this way |
| Segmenter.SplitAllSqueeze | text_processing.py:100-119 | the final segments keep the units' non-whitespace characters in order |
| Segmenter.SegmentsShape | text_processing.py:75-121 | end to end, every segment is non-empty and bounded, and the segments hold the cleaned paragraphs' non-whitespace characters in order |
| Segmenter.ProcessParagraphs | text_processing.py:75-121 | a missing normaliser is the `ValueError`; otherwise the merge loop and then the cut loop yield the specified segments |
| Filters.CheckFilters | Collocation_Search.py:764-773 | a neighbour is rejected exactly when one of three things holds: a role is chosen and its tag set (empty for an unknown role) lacks the tag; the word must contain the value and does not; or it must start with the value and does not. The older application's filter (app_ui.py:593-602) is the same function |
| Filters.NoFiltersAcceptAll | Collocation_Search.py:764-773 | with no role and no condition chosen, every neighbour passes |
| Filters.UnknownRoleRejects | Collocation_Search.py:766-768 | a role name missing from `pos_map` rejects every tag |
| Filters.NounFilter | Collocation_Search.py:148-149 | the noun role accepts exactly `NOUN` and `NOUN,EZ` |
| Filters.EmptyValueContained | Collocation_Search.py:771 | an empty "contains" value is in every word, as Python's `in` has it |
| PosTable.Lookup | Collocation_Search.py:148-153 | `pos_map.get` finds a name exactly when an entry has it, and returns that entry's tags. The older application's table (app_ui.py:44-49) is the same |
| PosTable.PosNamesDistinct | Collocation_Search.py:148-153 | the role names are distinct |
| PosTable.PosTagsDisjoint | Collocation_Search.py:148-153 | no tag belongs to two roles |
| PosTable.ReverseInverts | Collocation_Search.py:155 | for a table with distinct names and disjoint tag sets, the reverse map sends a tag to a name exactly when that name's entry lists it |
| PosTable.FriendlyPosInverts | Collocation_Search.py:155 | `reverse_pos_map.get(tag, tag)` shows a role's name for exactly the tags its filter accepts. The only exception is an unlisted tag, which is shown as itself |
| Provenance.Add | Collocation_Search.py:829 | `d[k].append(v)` on a `defaultdict(list)` adds `v` at the end of `k`'s list and changes no other key |
| Provenance.InsertRefSpec | Collocation_Search.py:377-381 | inserting into a strictly sorted list keeps it strictly sorted and adds exactly the new source |
| Provenance.SortSourcesSpec | Collocation_Search.py:377-381 | the shown list is strictly ascending by (source, sentence) and holds exactly the recorded sources |
| Provenance.StrictlySortedUnique | Collocation_Search.py:381 | two strictly sorted lists with the same elements are equal |
| Provenance.SortSourcesCanonical | Collocation_Search.py:377-381 | the shown list depends only on which sources were recorded, not on their order or repetitions |
| Counters.IndexOf | Collocation_Search.py:796 | a key's position is the first entry holding it, or the end if there is none |
| Counters.Increment | Collocation_Search.py:796 | `c[k] += 1` keeps keys distinct and every existing key in place; a new key goes last with count 1 |
| Counters.IncrementCount | Collocation_Search.py:796 | incrementing `k` adds one to `k`'s count and to no other |
| Counters.TallySnoc | Collocation_Search.py:790-796 | counting one more value is one increment |
| Counters.TallyCount | Collocation_Search.py:790-796 | each count is the number of times its key was counted, the keys are exactly the counted values, and no count is zero |
| Counters.TallyFirstSeen | Collocation_Search.py:790-796 | the entries stand in the order their keys were first counted |
| Counters.TallyTotal | Collocation_Search.py:790-796 | summing the counts of any class of keys gives the number of counted values in that class |
| Counters.MostCommonOrder | Collocation_Search.py:800 | `most_common()` lists the same entries by count descending, and entries with equal counts keep first-counted order |
| Counters.MostCommonEntry | Collocation_Search.py:800 | every listed entry is a counted entry with a positive count |
| Counters.TotalPositive | Collocation_Search.py:800 | a listed entry's count is at most its class total |
| Corpus.Words | Collocation_Search.py:820 | definition: the word list, the tokens' first components position by position. What the searches find in it is stated by `Corpus.EventsSpec` and `Corpus.ExactSpec` |
| Corpus.LabelsDiffer | Collocation_Search.py:829-834 | the before and after labels differ |
| Corpus.EventsAtSpec | Collocation_Search.py:822-834 | a window records a neighbour exactly when all of these hold: the window matches, the mode asks for that side, the neighbour exists, and it passes the filters |
| Corpus.EventsSpec | Collocation_Search.py:819-834 | a neighbour is recorded exactly when some segment has a matching window that gives it, on a wanted side, passing the filters |
| Corpus.ModeExcludesSide | Collocation_Search.py:825-834 | a mode that does not ask for a side records nothing on it, and with filters switched on every recorded neighbour passes them |
| Corpus.MappingCounts | Collocation_Search.py:825-834 | for every word, the neighbours counted under it on one side are as many as the sources listed under that side's label and the word |
| Corpus.SideBoundedByExact | Collocation_Search.py:821-834 | each side records at most one neighbour per exact occurrence |
| Corpus.ExactSpec | Collocation_Search.py:821-824 | a source is recorded as an exact occurrence exactly when one of its segment's windows matches the tokens |
| Corpus.SegExactSpec | Collocation_Search.py:821-824 | within a segment, the windows visited are all the places where the tokens can match |
| Corpus.SegExactCount | Collocation_Search.py:821-824 | within a segment, one source is recorded per matching start position among the windows visited, and each is the segment's own |
| Corpus.ExactCount | Collocation_Search.py:819-824 | the exact occurrence count, and so the keyword row's count, is the number of (segment, start position) pairs at which the phrase's tokens occur |
| Corpus.FirstHit | Collocation_Search.py:794-798 | the token chosen is the first whose normalised word contains the phrase |
| Corpus.SubHitsSpec | Collocation_Search.py:790-798 | a segment contributes at most one hit. It does so only when its normalised sentence contains the phrase, and the hit is one of its own tokens |
| Corpus.HitCounts | Collocation_Search.py:796-797 | a word's count, summed over its tags, equals the number of sources listed for it |
| NeighbourScan.Apply | Collocation_Search.py:828-834 | recording a neighbour keeps the counter keys distinct |
| NeighbourScan.ApplyAllAppend | Collocation_Search.py:819-834 | recording in two stretches is the same as recording once, which lets the loops run segment by segment |
| NeighbourScan.ApplyAllCounts | Collocation_Search.py:828-833 | from empty counters, each side's counter is the tally of that side's keys |
| NeighbourScan.ApplyAllMapping | Collocation_Search.py:829-834 | from an empty map, the provenance map is the fold of the recorded neighbours |
| NeighbourScan.ApplyBefore | Collocation_Search.py:828-829 | recording a neighbour before the phrase bumps the before counter and appends to the before list |
| NeighbourScan.ApplyAfter | Collocation_Search.py:833-834 | recording a neighbour after the phrase bumps the after counter and appends to the after list |
| Chunks.FindFrom | app_ui.py:301 | the match found is the leftmost occurrence at or after the position |
| Chunks.SplitFromMatch | Collocation_Search.py:413-414 | a text with a match splits into the piece before it plus the pieces after it |
| Chunks.SplitFromJoin | Collocation_Search.py:413-415 | putting the phrase back between the pieces restores the text |
| Chunks.SplitFromFree | Collocation_Search.py:413-414 | no piece contains the phrase |
| Chunks.SplitOnCount | Collocation_Search.py:409-414 | there are at least two pieces exactly when the phrase occurs |
| Chunks.SplitFromLength | app_ui.py:299-306 | the pieces' lengths plus one phrase per match make up the text's length |
| Chunks.JoinLength | app_ui.py:325-332 | a join adds one separator between each two pieces |
| Sorting.SortBySorted | Collocation_Search.py:882-885 | `list.sort(key, reverse)` puts the rows in key order, descending when reversed |
| Sorting.SortByPermutation | Collocation_Search.py:882-885 | the sort loses and adds no row |
| Sorting.SortByStable | Collocation_Search.py:882-885 | rows with equal keys keep their order, even with `reverse=True` |
| Sorting.StableSortUnique | Collocation_Search.py:882-885 | a key-ordered permutation that keeps equal-key rows in order is unique |
| Sorting.SortByCharacterized | Collocation_Search.py:882-885 | any ordered, stable permutation is the sort's result |
| ResultTable.IndexIn | Collocation_Search.py:879 | a column name's index points at that name, and there is none exactly for unknown names |
| ResultTable.ShowNat | Collocation_Search.py:859 | a count written into the table is a string of ASCII digits |
| ResultTable.ShowNatRoundTrip | Collocation_Search.py:883 | a written count reads back as the same number under `int(v) if v.isdigit() else 0` |
| ResultTable.SetAsidePermutation | Collocation_Search.py:879-880 | setting the no-result rows aside loses no row, and the two parts differ exactly in the word cell |
| ResultTable.SortRowsSpec | Collocation_Search.py:882-885 | a column sort is ordered by the column key, a permutation, and stable |
| ResultTable.FrequencyDescending | Collocation_Search.py:872 | the frequency sort with `reverse=True` puts larger counts first |
| CollocationSearch.Validate | Collocation_Search.py:735-761 | a search starts exactly when the stripped phrase is non-empty and, in neighbour mode, any chosen word condition has a value. The request carries the stripped phrase and the normalised condition value |
| CollocationSearch.App.constructor | Collocation_Search.py:131-160 | a new application has empty provenance maps, no clicked result and an empty table over the loaded corpus |
| CollocationSearch.App.StartSearch | Collocation_Search.py:735-762 | the request is the validation's verdict. A non-blank keyword becomes the last searched phrase. A search that starts clears the table |
| CollocationSearch.RecordBefore | Collocation_Search.py:825-829 | the before-neighbour of a window is counted and recorded exactly as the specification's neighbour sequence says |
| CollocationSearch.RecordAfter | Collocation_Search.py:830-834 | likewise for the after-neighbour |
| CollocationSearch.ScanWindow | Collocation_Search.py:825-834 | a matching window records its before- and then its after-neighbour |
| CollocationSearch.ScanAt | Collocation_Search.py:822-834 | a window that matches adds one exact occurrence with its source and records its neighbours; any other window changes nothing |
| CollocationSearch.ScanWindows | Collocation_Search.py:820-834 | the window loop over one segment adds that segment's exact occurrences and neighbours |
| CollocationSearch.ScanNeighbours | Collocation_Search.py:814-834 | the running exact-occurrence count, its sources, the two counters and the provenance map equal their specification over the whole corpus |
| CollocationSearch.FindHit | Collocation_Search.py:794-798 | the `for ... break` loop finds the first token whose normalised word contains the phrase |
| CollocationSearch.HitStep | Collocation_Search.py:796-797 | one hit bumps its token's count and appends its source under its word |
| CollocationSearch.ScanSegment | Collocation_Search.py:791-798 | one segment adds its hit, if any, to the counter and the sources |
| CollocationSearch.ScanSubstring | Collocation_Search.py:790-798 | the substring loop's counter and sources are the tally and fold of the hits |
| CollocationSearch.ListSubstrings | Collocation_Search.py:800-803 | one partial-match row per counter entry, in `most_common` order |
| CollocationSearch.ListNeighbours | Collocation_Search.py:842-848 | one neighbour row per counter entry, in `most_common` order |
| CollocationSearch.ListColloc | Collocation_Search.py:841-848 | the before rows, then the after rows, for the sides the mode asks for |
| CollocationSearch.RunSubstring | Collocation_Search.py:785-803 | a blank normalised phrase gives nothing; otherwise the rows and sources are the specified ones |
| CollocationSearch.RunNeighbours | Collocation_Search.py:806-848 | no tokens gives nothing. Otherwise the search gives a keyword row when some window matched, plus the neighbour rows and both provenance maps |
| CollocationSearch.RunSearch | Collocation_Search.py:776-850 | the search type chooses the branch, and an unknown type gives nothing |
| CollocationSearch.App.PerformSearch | Collocation_Search.py:775-850 | both provenance maps are cleared and refilled by this search alone, and the returned rows are the specified ones |
| CollocationSearch.UnknownSearchTypeNoRows | Collocation_Search.py:784-850 | a search type other than the two offered gives no rows and no provenance |
| CollocationSearch.KeywordRow | Collocation_Search.py:821-824 | the keyword row appears exactly when some window matches the tokens, and it carries the number of exact occurrences. The mode and the filters do not change it |
| CollocationSearch.ExactNonEmpty | Collocation_Search.py:836 | some exact occurrence is recorded exactly when some window matches |
| CollocationSearch.NeighbourCountsMatchSources | Collocation_Search.py:828-834 | for every word, its neighbour counts on one side add up to the number of sources under that side's label and the word |
| CollocationSearch.SubstringCountsMatchSources | Collocation_Search.py:796-797 | a word's counts over its tags add up to the number of sources recorded for it |
| CollocationSearch.NeighbourRowHasSources | Collocation_Search.py:842-848 | a neighbour row carries its side's label and a positive count, and has recorded sources |
| CollocationSearch.CollocRowsHaveSources | Collocation_Search.py:841-848 | clicking any neighbour row a search lists never shows the placeholder |
| CollocationSearch.HitRowHasSources | Collocation_Search.py:800-803 | every row listed from a tally of hits has recorded sources |
| CollocationSearch.SubstringRowsHaveSources | Collocation_Search.py:800-803 | every partial-match row has the partial-match position and recorded sources |
| CollocationSearch.CollocOrder | Collocation_Search.py:841-848 | the neighbour rows list the before side first, then the after side, each by count descending |
| NeighbourScan.SideDescending | Collocation_Search.py:842-848 | one side's rows, listed from `most_common`, carry its label and come by count descending (also app_ui.py:632-634) |
| NeighbourScan.ConcatDescending | Collocation_Search.py:841-848 | before rows followed by after rows keep the sides apart, each in order (also app_ui.py:630-634) |
| CollocationSearch.App.ShowResults | Collocation_Search.py:852-868 | the table afterwards is exactly that display |
| CollocationSearch.DisplayedRows | Collocation_Search.py:852-868 | no results leave only the no-result row; otherwise there is one table row per result, showing its word and a count that reads back as the result's count |
| CollocationSearch.App.OnResultClick | Collocation_Search.py:358-401 | a short row or the no-result row changes nothing. Otherwise the row's tag decides the word to highlight and the sources to show: the keyword and partial-match rows look up `direct_phrase_sources`, the neighbour rows look up `sentence_mapping` by (position, word), and an empty list shows a placeholder |
| CollocationSearch.ShownSpec | Collocation_Search.py:377-381 | recorded sources are shown once each, ascending by (source, sentence), and an empty list shows only the placeholder |
| CollocationSearch.ClickNeighbour | Collocation_Search.py:390-397 | clicking a neighbour row with sources highlights its word and shows its sorted sources |
| CollocationSearch.ClickSubstring | Collocation_Search.py:382-389 | clicking a partial-match row with sources highlights its word and shows its sorted sources |
| CollocationSearch.ReorderForBidi | Collocation_Search.py:405-453 | without the phrase, the text comes back as it is. Otherwise the pieces around the phrase, laid out by the chosen model and stripped, are joined by the phrase with one space on each side |
| CollocationSearch.Lay | Collocation_Search.py:444-450 | the assembly loop joins the stripped pieces with the padded delimiter |
| CollocationSearch.LayOne | Collocation_Search.py:445-448 | one round appends a stripped piece and, while delimiters remain, the delimiter |
| CollocationSearch.StripAll | Collocation_Search.py:446 | stripping keeps one piece per piece |
| CollocationSearch.BidiShape | Collocation_Search.py:409-441 | a text with the phrase has at least two pieces; a known model only permutes them, and applying it twice restores their order |
| CollocationSearch.ReorderLength | Collocation_Search.py:417-441 | a known model keeps every piece, while an unknown model lays out none, giving an empty text |
| CollocationSearch.ReorderPermutation | Collocation_Search.py:419-441 | every model rearranges the pieces without losing or adding any |
| CollocationSearch.ReorderInvolution | Collocation_Search.py:419-441 | each model is its own inverse |
| CollocationSearch.KeepLastPairInvolution | Collocation_Search.py:425-432 | model 3 (all but the last two reversed) is its own inverse |
| CollocationSearch.KeepFirstPairInvolution | Collocation_Search.py:434-441 | model 4 (the first two kept, the rest reversed) is its own inverse |
| CollocationSearch.App.SortTreeview | Collocation_Search.py:877-889 | an unknown column leaves the table unchanged. Otherwise the non-result rows come sorted by the column's key, then the no-result rows |
| CollocationSearch.ArrangedSpec | Collocation_Search.py:877-886 | after a sort the table loses no row, leaves the no-result row at the bottom, and orders every other row by the column key, keeping equal-key rows in order |
| LegacyApp.Validate | app_ui.py:572-590 | a search starts exactly when the stripped phrase is non-empty, it tokenises to something, and any chosen word condition has a value. The request carries exactly the tokens of the normalised phrase and a filter with the chosen mode, condition type, normalised condition value and role |
| LegacyApp.StartedSearchIsValid | app_ui.py:572-581 | no blank keyword, tokenless keyword or valueless condition ever reaches the search |
| LegacyApp.App.constructor | app_ui.py:28-52 | a new application has an empty provenance map, no clicked result and an empty table |
| LegacyApp.App.StartSearch | app_ui.py:570-591 | the request is the validation's verdict. A non-blank keyword becomes the last searched phrase. A search that starts clears the table |
| LegacyApp.RecordBefore | app_ui.py:619-623 | the before-neighbour is counted under (word, sample) and recorded |
| LegacyApp.RecordAfter | app_ui.py:624-628 | likewise for the after-neighbour |
| LegacyApp.ScanWindow | app_ui.py:619-628 | a matching window records its before- and then its after-neighbour |
| LegacyApp.ScanAt | app_ui.py:617-628 | only a matching window records anything |
| LegacyApp.ScanWindows | app_ui.py:615-628 | the window loop over one segment records that segment's neighbours |
| LegacyApp.ScanNeighbours | app_ui.py:609-628 | both counters and the fresh provenance map equal their specification over the corpus |
| LegacyApp.ListResults | app_ui.py:632-634 | one result per counter entry, in `most_common` order |
| LegacyApp.ListSides | app_ui.py:630-634 | the before results, then the after results, for the sides the mode asks for |
| LegacyApp.App.PerformSearch | app_ui.py:604-635 | the provenance map is replaced by the one this search built, and the results are the specified ones |
| LegacyApp.CountsMatchSources | app_ui.py:622-628 | for every word, its counts on one side add up to the number of sources under that side's label and the word |
| LegacyApp.ResultHasSources | app_ui.py:630-634 | every result has a positive count, a side label and recorded sources |
| LegacyApp.SideResultHasSources | app_ui.py:632-634 | the same for one side's results |
| LegacyApp.ResultsOrder | app_ui.py:630-634 | before results come first, then after results, each side by count descending |
| LegacyApp.App.ShowResults | app_ui.py:637-644 | the table shows the results or the one no-result row |
| LegacyApp.ShownRows | app_ui.py:637-644 | no results leave only the no-result row, otherwise one row per result with its word |
| LegacyApp.App.OnResultClick | app_ui.py:185-206 | a row without a word, or one that does not unpack into four values, changes nothing. Otherwise its word is highlighted and the sources shown are those recorded under (position, word), deduplicated and sorted, or the placeholder |
| LegacyApp.ClickShowsSources | app_ui.py:194-206 | clicking a listed result shows each of its recorded sources once, ascending, never the placeholder |
| LegacyApp.App.SortTreeview | app_ui.py:696-706 | every row, the no-result row included, is sorted by the column's key, and an unknown column leaves the table unchanged |
| LegacyApp.ReorderAsWritten | app_ui.py:281-294 | the code as written returns the text when either argument is empty and otherwise fails with `NameError` |
| LegacyApp.ReorderForHighlighting | app_ui.py:281-334 | without an occurrence of the word, the text comes back as it is. Otherwise the pieces between the occurrences come back in reverse order with the word between each two |
| LegacyApp.Pieces | app_ui.py:296-306 | the `finditer` loop yields the pieces around the matches, plus one highlight per match, which is the word |
| LegacyApp.NextMatch | app_ui.py:301-305 | one match adds the piece before it and the match, and moves strictly forward |
| LegacyApp.Interleave | app_ui.py:325-332 | piece, highlight, ..., last piece is the pieces joined by the word |
| LegacyApp.ReorderKeepsPieces | app_ui.py:296-334 | the pieces rejoin to the text, there are at least two, none contains the word, and the reordered text is as long as the text |
| LegacyApp.ReorderExample | app_ui.py:283-284 | the documented example: pieces "a", "b" around "H" come back as "bHa", while the code as written fails on that input |
| LegacyApp.ExampleSplit | app_ui.py:299-306 | "aHb" splits around "H" into "a" and "b" |

## Left out

- File and document I/O is not modelled: reading `.docx` files, loading the correction list from Excel, the pickle cache, the Excel exports and opening files.
- The corpus is a parameter, the state after loading. Building it (tokenising and tagging each sentence) is not modelled.
- The tkinter widgets, the status and progress displays, the help text and the highlighting of the text widget are not modelled. This covers `_apply_or_remove_highlights`, `_highlight_text` and `_highlight_text_in_range`, which rely on Tk's text-index search.
- Threads and `root.after` scheduling are not modelled: `_perform_search` returns its rows instead of posting them to the UI.
- The deferred frequency sort that `_update_ui_with_results` schedules is not composed into `ShowResults`. It is `SortTreeview` on the frequency column with `reverse=True`.
- The display of the click's sources is not modelled: only the state it leaves (highlighted word, sources for export) is.
- The row tags (`direct_hit`, `substring_hit`, `collocation_hit`) are inputs to `OnResultClick` rather than stored with the table rows.
- hazm's `Normalizer`, `word_tokenize` and `POSTagger` are uninterpreted parameters; no property of theirs (such as idempotence) is assumed.
- `\b` is decided by an uninterpreted word-character predicate rather than Python's Unicode `\w` table.
- Corrections.MakeCorrections: requires the table's keys to be non-empty and distinct. Dict keys are distinct anyway; an empty key, which would add an empty alternative to the regex, is not modelled.
- Segmenter.ProcessParagraphs: requires `ideal_words >= 1`. With `ideal_words` 0 the split point can be 0, and the loop can then run for ever on a long unit.
- Segmenter.CutUnit: likewise requires `ideal_words >= 1`.
- Segmenter.CutAll: likewise requires `ideal_words >= 1`.
- Segmenter.SplitPiecesShape: likewise requires `ideal_words >= 1`.
- Segmenter.SegmentsShape: likewise requires `ideal_words >= 1`.
- CollocationSearch.ReorderForBidi: the split matches the phrase exactly. The source splits with `re.IGNORECASE` after a case-sensitive containment test, so cased (non-Persian) text may be split differently.
- Provenance.SortSourcesSpec: the sort key's first component `x[1] is None` is always false, because sources are strings here, so the order is by (source, sentence).
- The progress arithmetic (floating point, display only) is not modelled.
- The `except` clause of `_reorder_text_for_bidi_fix` is not modelled: an escaped literal pattern raises no `re.error`, and the slicing raises no `IndexError`.
- The `except (ValueError, tk.TclError)` of both `_sort_treeview`s: the `TclError` that Tk raises for a column that is not a column is modelled as the table left unchanged (`IndexIn(Columns, col).None?`). The `ValueError` is not modelled. It arises only when `isdigit()` holds but `int()` fails, as on a superscript digit, and counts are written by `ResultTable.ShowNat` in ASCII digits.
- ResultTable.FreqValue: reads only ASCII, Arabic-Indic and Persian digits as decimal, where Python's `isdigit()`/`int()` accept every Unicode decimal digit ("३" reads as 3 in Python and as 0 here). No written count contains such a digit, so the difference cannot be reached from the modelled table.

## Findings

| source | as written | input that shows it | evidently intended | confidence | as-written member | corrected member |
|---|---|---|---|---|---|---|
| app_ui.py:281-334 | `_reorder_text_for_highlighting` calls `re.escape` and `re.finditer`, but `re` is not imported (the import at line 11 is commented out), so any call with a non-empty word and text raises `NameError` | text "aHb", word "H" | the pieces between the occurrences are reversed around the word: "bHa", as the function's own documentation describes | not executed | LegacyApp.ReorderAsWritten (counterexample LegacyApp.ReorderExample) | LegacyApp.ReorderForHighlighting |
