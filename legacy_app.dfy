/** The older application (`app_ui.py`): the same neighbour search over the
    tagged corpus, without the substring mode, the keyword row or the
    grammatical-role column, with its own input validation, result click,
    column sort and highlight reordering.

    The application object keeps the corpus, the provenance map of the last
    search, the last searched phrase, the word and sources of the last
    clicked result, and the rows of the results table. */
module LegacyApp {
  import opened Wrappers
  import opened Strings
  import opened Counters
  import opened Sorting
  import opened Filters
  import opened Provenance
  import opened Corpus
  import opened Chunks
  import opened ResultTable
  import opened NeighbourScan

  const Columns := ["نمونه", "کلمه", "فراوانی", "موقعیت"]
  const FrequencyColumn := "فراوانی"
  /** The word cell of the row shown when nothing was found. */
  const NoResults := "هیچ نتیجه‌ای یافت نشد."
  /** The one source shown for a result nothing was recorded for. */
  const NoSentence := "جمله‌ای یافت نشد."

  /** What `_start_search` hands to the search thread. */
  datatype Request = Request(tokens: seq<string>, filter: SearchParams)

  /** `_start_search`'s checks: a blank keyword, a keyword without tokens,
      or a word condition without a value starts no search; otherwise the
      search gets the keyword's tokens and the normalised condition value. */
  function Validate(keyword: string, mode: string, conditionType: string, conditionEntry: string, posFilter: string,
                    normalize: string -> string, tokenize: string -> seq<string>): (r: Option<Request>)
    ensures r.Some? <==>
      && Strip(keyword) != []
      && tokenize(normalize(Strip(keyword))) != []
      && (conditionType == NoCondition || Strip(conditionEntry) != [])
    ensures r.Some? ==> r.value.tokens == tokenize(normalize(Strip(keyword))) && r.value.tokens != []
    ensures r.Some? ==> r.value.filter == SearchParams(mode, conditionType, normalize(Strip(conditionEntry)), posFilter)
  {
    var phrase := Strip(keyword);
    var tokens := tokenize(normalize(phrase));
    var value := Strip(conditionEntry);
    if phrase == [] || tokens == [] || (conditionType != NoCondition && value == []) then None
    else Some(Request(tokens, SearchParams(mode, conditionType, normalize(value), posFilter)))
  }

  /** A neighbour counter key: (word, sample). */
  type LegacyKey = (string, string)

  function LegacyKeyOf(e: Event, phrase: string): LegacyKey {
    (e.token.0, Sample(e, phrase))
  }

  /** A result: (sample, word, count, position). */
  datatype Row = Row(sample: string, word: string, count: nat, position: string)

  function ResultRow(entry: (LegacyKey, nat), side: Side): Row {
    Row(entry.0.1, entry.0.0, entry.1, Label(side))
  }

  function ResultRows(entries: seq<(LegacyKey, nat)>, side: Side): seq<Row> {
    seq(|entries|, i requires 0 <= i < |entries| => ResultRow(entries[i], side))
  }

  /** The counter of one side. */
  function SideCounter(data: seq<Segment>, tokens: seq<string>, p: SearchParams, side: Side): Counter<LegacyKey> {
    Tally(SideKeys(Events(data, tokens, p), side, Join(tokens, " "), LegacyKeyOf))
  }

  /** The results: the before side, then the after side, as far as the mode
      asks for them, each by `most_common`. */
  function Results(before: Counter<LegacyKey>, after: Counter<LegacyKey>, mode: string): seq<Row> {
    (if WantsBefore(mode) then ResultRows(MostCommon(before), Before) else [])
    + (if WantsAfter(mode) then ResultRows(MostCommon(after), After) else [])
  }

  /** The results of a search for `tokens`. */
  function Search(data: seq<Segment>, tokens: seq<string>, p: SearchParams): seq<Row> {
    Results(SideCounter(data, tokens, p, Before), SideCounter(data, tokens, p, After), p.mode)
  }

  /** The cell values a result row is shown with. */
  function RowValues(r: Row): Values {
    [r.sample, r.word, ShowNat(r.count), r.position]
  }

  /** The table after the results arrive: the results, or the one
      no-result row. */
  function Shown(results: seq<Row>): seq<Values> {
    if results == [] then [["", NoResults, "", ""]]
    else seq(|results|, i requires 0 <= i < |results| => RowValues(results[i]))
  }

  /** `sorted(set(mapping.get(key, [placeholder])))`: a key that was never
      recorded shows the placeholder source. */
  function ShownSources(mapping: map<(string, string), seq<SourceRef>>, key: (string, string)): seq<SourceRef> {
    if key in mapping then SortSources(mapping[key]) else [(NoSentence, "")]
  }

  // ---- The neighbour scan ----

  /** Recording the neighbours of one matching window. */
  method ScanWindow(g: Segment, tokens: seq<string>, p: SearchParams, ps: string, i: nat,
                    before: Counter<LegacyKey>, after: Counter<LegacyKey>,
                    mapping: map<(string, string), seq<SourceRef>>)
    returns (before': Counter<LegacyKey>, after': Counter<LegacyKey>, mapping': map<(string, string), seq<SourceRef>>)
    requires MatchAt(g, tokens, i)
    requires DistinctKeys(before) && DistinctKeys(after)
    ensures ScanState(before', after', mapping') == ApplyAll(ScanState(before, after, mapping), EventsAt(g, tokens, p, i), ps, LegacyKeyOf)
  {
    var hasFilters := HasFilters(p);
    before', mapping' := RecordBefore(g, p, ps, i, hasFilters, before, after, mapping);
    after', mapping' := RecordAfter(g, tokens, p, ps, i, hasFilters, before', after, mapping');
    ApplyAllAppend(ScanState(before, after, mapping), BeforeAt(g, p, i), AfterAt(g, tokens, p, i), ps, LegacyKeyOf);
  }

  /** The word before the window, when the mode asks for it and it passes
      the filters. */
  method RecordBefore(g: Segment, p: SearchParams, ps: string, i: nat, hasFilters: bool,
                      before: Counter<LegacyKey>, after: Counter<LegacyKey>,
                      mapping: map<(string, string), seq<SourceRef>>)
    returns (before': Counter<LegacyKey>, mapping': map<(string, string), seq<SourceRef>>)
    requires i <= |g.tagged| && hasFilters == HasFilters(p)
    requires DistinctKeys(before) && DistinctKeys(after)
    ensures DistinctKeys(before')
    ensures ScanState(before', after, mapping') == ApplyAll(ScanState(before, after, mapping), BeforeAt(g, p, i), ps, LegacyKeyOf)
  {
    before', mapping' := before, mapping;
    if WantsBefore(p.mode) && i > 0 {
      var prev := g.tagged[i - 1];
      if !hasFilters || CheckFilters(prev.0, prev.1, p) {
        ApplyBefore(ScanState(before, after, mapping), Event(Before, prev, Ref(g)), ps, LegacyKeyOf);
        before' := Increment(before, (prev.0, prev.0 + " " + ps));
        mapping' := Add(mapping, (Label(Before), prev.0), Ref(g));
      }
    }
  }

  /** The word after the window, likewise. */
  method RecordAfter(g: Segment, tokens: seq<string>, p: SearchParams, ps: string, i: nat, hasFilters: bool,
                     before: Counter<LegacyKey>, after: Counter<LegacyKey>,
                     mapping: map<(string, string), seq<SourceRef>>)
    returns (after': Counter<LegacyKey>, mapping': map<(string, string), seq<SourceRef>>)
    requires hasFilters == HasFilters(p)
    requires DistinctKeys(before) && DistinctKeys(after)
    ensures DistinctKeys(after')
    ensures ScanState(before, after', mapping') == ApplyAll(ScanState(before, after, mapping), AfterAt(g, tokens, p, i), ps, LegacyKeyOf)
  {
    after', mapping' := after, mapping;
    if WantsAfter(p.mode) && i + |tokens| < |g.tagged| {
      var next := g.tagged[i + |tokens|];
      if !hasFilters || CheckFilters(next.0, next.1, p) {
        ApplyAfter(ScanState(before, after, mapping), Event(After, next, Ref(g)), ps, LegacyKeyOf);
        after' := Increment(after, (next.0, ps + " " + next.0));
        mapping' := Add(mapping, (Label(After), next.0), Ref(g));
      }
    }
  }

  /** The windows of one segment. */
  method ScanWindows(g: Segment, tokens: seq<string>, p: SearchParams, ps: string,
                     before: Counter<LegacyKey>, after: Counter<LegacyKey>,
                     mapping: map<(string, string), seq<SourceRef>>)
    returns (before': Counter<LegacyKey>, after': Counter<LegacyKey>, mapping': map<(string, string), seq<SourceRef>>)
    requires DistinctKeys(before) && DistinctKeys(after)
    ensures ScanState(before', after', mapping')
         == ApplyAll(ScanState(before, after, mapping), SegEvents(g, tokens, p, Windows(|g.tagged|, |tokens|)), ps, LegacyKeyOf)
  {
    ghost var s := ScanState(before, after, mapping);
    before', after', mapping' := before, after, mapping;
    var words := Words(g.tagged);
    for i := 0 to Windows(|g.tagged|, |tokens|)
      invariant ScanState(before', after', mapping') == ApplyAll(s, SegEvents(g, tokens, p, i), ps, LegacyKeyOf)
    {
      ApplyAllAppend(s, SegEvents(g, tokens, p, i), EventsAt(g, tokens, p, i), ps, LegacyKeyOf);
      before', after', mapping' := ScanAt(g, tokens, p, ps, words, i, before', after', mapping');
    }
  }

  /** One window of a segment: its neighbours are recorded when the words
      there are the tokens. */
  method ScanAt(g: Segment, tokens: seq<string>, p: SearchParams, ps: string, words: seq<string>, i: nat,
                before: Counter<LegacyKey>, after: Counter<LegacyKey>,
                mapping: map<(string, string), seq<SourceRef>>)
    returns (before': Counter<LegacyKey>, after': Counter<LegacyKey>, mapping': map<(string, string), seq<SourceRef>>)
    requires words == Words(g.tagged) && i < Windows(|g.tagged|, |tokens|)
    requires DistinctKeys(before) && DistinctKeys(after)
    ensures ScanState(before', after', mapping') == ApplyAll(ScanState(before, after, mapping), EventsAt(g, tokens, p, i), ps, LegacyKeyOf)
  {
    if words[i..i + |tokens|] == tokens {
      before', after', mapping' := ScanWindow(g, tokens, p, ps, i, before, after, mapping);
    } else {
      before', after', mapping' := before, after, mapping;
      assert !MatchAt(g, tokens, i);
    }
  }

  /** The window loop over the whole corpus. */
  method ScanNeighbours(data: seq<Segment>, tokens: seq<string>, p: SearchParams)
    returns (before: Counter<LegacyKey>, after: Counter<LegacyKey>, mapping: map<(string, string), seq<SourceRef>>)
    ensures before == SideCounter(data, tokens, p, Before)
    ensures after == SideCounter(data, tokens, p, After)
    ensures mapping == Mapping(Events(data, tokens, p))
  {
    var ps := Join(tokens, " ");
    before, after, mapping := [], [], map[];
    for k := 0 to |data|
      invariant ScanState(before, after, mapping) == ApplyAll(Start(), Events(data[..k], tokens, p), ps, LegacyKeyOf)
    {
      assert data[..k + 1][..k] == data[..k] && data[..k + 1][k] == data[k];
      ApplyAllAppend(Start(), Events(data[..k], tokens, p), SegEvents(data[k], tokens, p, Windows(|data[k].tagged|, |tokens|)), ps, LegacyKeyOf);
      before, after, mapping := ScanWindows(data[k], tokens, p, ps, before, after, mapping);
    }
    assert data[..|data|] == data;
    ApplyAllCounts(Events(data, tokens, p), Before, ps, LegacyKeyOf);
    ApplyAllCounts(Events(data, tokens, p), After, ps, LegacyKeyOf);
    ApplyAllMapping(Events(data, tokens, p), ps, LegacyKeyOf);
  }

  /** The rows listing a counter's entries by `most_common`. */
  method ListResults(c: Counter<LegacyKey>, side: Side) returns (rows: seq<Row>)
    ensures rows == ResultRows(MostCommon(c), side)
  {
    var entries := MostCommon(c);
    rows := [];
    for i := 0 to |entries|
      invariant rows == ResultRows(entries[..i], side)
    {
      rows := rows + [ResultRow(entries[i], side)];
    }
    assert entries[..|entries|] == entries;
  }

  /** The result list, side by side. */
  method ListSides(before: Counter<LegacyKey>, after: Counter<LegacyKey>, mode: string) returns (rows: seq<Row>)
    ensures rows == Results(before, after, mode)
  {
    var bs: seq<Row> := [];
    if WantsBefore(mode) {
      bs := ListResults(before, Before);
    }
    var fs: seq<Row> := [];
    if WantsAfter(mode) {
      fs := ListResults(after, After);
    }
    rows := bs + fs;
  }

  // ---- The highlight reordering ----

  /** `_reorder_text_for_highlighting` as written: the module it calls on
      (`re`) is never imported, so every call that gets past the emptiness
      check fails with a `NameError`. */
  function ReorderAsWritten(text: string, word: string): (r: Result<string, string>)
    ensures r.Err? <==> text != [] && word != []
    ensures r.Ok? ==> r.value == text
  {
    if word == [] || text == [] then Ok(text)
    else Err("NameError: name 're' is not defined")
  }

  /** `_reorder_text_for_highlighting` as its documentation describes it: the
      text pieces between the occurrences of the word, in reverse order, with
      the word between each two; a text without the word comes back as it
      is. */
  method ReorderForHighlighting(text: string, word: string) returns (r: string)
    ensures word == [] || text == [] || !Contains(text, word) ==> r == text
    ensures word != [] && text != [] && Contains(text, word) ==> r == Join(Reverse(SplitOn(text, word)), word)
  {
    if word == [] || text == [] || !Contains(text, word) {
      return text;
    }
    var textChunks, highlightChunks := Pieces(text, word);
    SplitOnCount(text, word);
    textChunks := Reverse(textChunks);
    r := Interleave(textChunks, highlightChunks, word);
  }

  /** The `finditer` loop: the text before each match, each match, and the
      text after the last match. */
  method Pieces(text: string, word: string) returns (textChunks: seq<string>, highlightChunks: seq<string>)
    requires word != []
    ensures textChunks == SplitOn(text, word)
    ensures |highlightChunks| + 1 == |textChunks|
    ensures forall i | 0 <= i < |highlightChunks| :: highlightChunks[i] == word
  {
    textChunks, highlightChunks := [], [];
    ghost var all := SplitOn(text, word);
    ghost var todo := all;
    var last: nat := 0;
    var m := FindFrom(text, word, 0);
    while m.Some?
      invariant last <= |text| && m == FindFrom(text, word, last)
      invariant todo == SplitFrom(text, word, last)
      invariant textChunks + todo == all
      invariant |highlightChunks| == |textChunks|
      invariant forall i | 0 <= i < |highlightChunks| :: highlightChunks[i] == word
      decreases |text| - last
    {
      textChunks, highlightChunks, last, m, todo := NextMatch(text, word, textChunks, highlightChunks, last, m.value, todo, all);
    }
    SplitFromRest(text, word, last);
    textChunks := textChunks + [text[last..]];
  }

  /** One match: the text before it and the match itself. */
  method NextMatch(text: string, word: string, textChunks: seq<string>, highlightChunks: seq<string>, last: nat, start: nat,
                   ghost todo: seq<string>, ghost all: seq<string>)
    returns (textChunks': seq<string>, highlightChunks': seq<string>, last': nat, m: Option<nat>, ghost todo': seq<string>)
    requires word != [] && last <= |text| && FindFrom(text, word, last) == Some(start)
    requires todo == SplitFrom(text, word, last) && textChunks + todo == all
    requires |highlightChunks| == |textChunks|
    requires forall i | 0 <= i < |highlightChunks| :: highlightChunks[i] == word
    ensures last < last' <= |text| && m == FindFrom(text, word, last')
    ensures todo' == SplitFrom(text, word, last') && textChunks' + todo' == all
    ensures |highlightChunks'| == |textChunks'|
    ensures forall i | 0 <= i < |highlightChunks'| :: highlightChunks'[i] == word
  {
    SplitFromMatch(text, word, last, start);
    todo' := SplitFrom(text, word, start + |word|);
    Advance(textChunks, text[last..start], todo', todo, all);
    textChunks' := textChunks + [text[last..start]];
    highlightChunks' := highlightChunks + [text[start..start + |word|]];
    last' := start + |word|;
    m := FindFrom(text, word, last');
  }

  /** The assembly loop: each text piece followed by its highlight, then the
      last piece. With the highlights all the word and one piece more than
      highlights, that is the pieces joined by the word. */
  method Interleave(texts: seq<string>, highlights: seq<string>, word: string) returns (r: string)
    requires |texts| == |highlights| + 1
    requires forall i | 0 <= i < |highlights| :: highlights[i] == word
    ensures r == Join(texts, word)
  {
    r := "";
    for i := 0 to |highlights|
      invariant i == 0 ==> r == ""
      invariant 0 < i ==> r == Join(texts[..i], word) + word
    {
      JoinStep(texts[..i], texts[i], word, r);
      assert texts[..i] + [texts[i]] == texts[..i + 1];
      r := r + texts[i] + highlights[i];
    }
    JoinStep(texts[..|highlights|], texts[|highlights|], word, r);
    assert texts[..|highlights|] + [texts[|highlights|]] == texts;
    r := r + texts[|highlights|];
  }

  class App {
    var taggedData: seq<Segment>
    var sentenceMapping: map<(string, string), seq<SourceRef>>
    var lastSearchPhrase: string
    var currentFoundWord: Option<string>
    var currentSourcesForExport: seq<SourceRef>
    /** The rows of the results table, top to bottom. */
    var rows: seq<Values>

    constructor(data: seq<Segment>)
      ensures taggedData == data && sentenceMapping == map[] && lastSearchPhrase == ""
      ensures currentFoundWord == None && currentSourcesForExport == [] && rows == []
    {
      taggedData := data;
      sentenceMapping := map[];
      lastSearchPhrase := "";
      currentFoundWord := None;
      currentSourcesForExport := [];
      rows := [];
    }

    /** `_start_search`: a non-blank keyword becomes the last searched
        phrase; a search that passes the checks clears the table and is
        handed its request. */
    method StartSearch(keyword: string, mode: string, conditionType: string, conditionEntry: string, posFilter: string,
                       normalize: string -> string, tokenize: string -> seq<string>)
      returns (request: Option<Request>)
      modifies this`lastSearchPhrase, this`rows
      ensures request == Validate(keyword, mode, conditionType, conditionEntry, posFilter, normalize, tokenize)
      ensures lastSearchPhrase == if Strip(keyword) == [] then old(lastSearchPhrase) else Strip(keyword)
      ensures rows == if request.Some? then [] else old(rows)
    {
      request := None;
      var phrase := Strip(keyword);
      if phrase == [] {
        return;
      }
      lastSearchPhrase := phrase;
      var tokens := tokenize(normalize(phrase));
      if tokens == [] {
        return;
      }
      var value := Strip(conditionEntry);
      if conditionType != NoCondition && value == [] {
        return;
      }
      rows := [];
      request := Some(Request(tokens, SearchParams(mode, conditionType, normalize(value), posFilter)));
    }

    /** `_perform_search`: the provenance map is replaced by the one this
        search built, and the results are returned for display. */
    method PerformSearch(request: Request) returns (results: seq<Row>)
      modifies this`sentenceMapping
      ensures results == Search(taggedData, request.tokens, request.filter)
      ensures sentenceMapping == Mapping(Events(taggedData, request.tokens, request.filter))
    {
      var before, after, mapping := ScanNeighbours(taggedData, request.tokens, request.filter);
      sentenceMapping := mapping;
      results := ListSides(before, after, request.filter.mode);
    }

    /** `_update_ui_with_results`: the table shows the results, or the
        no-result row. */
    method ShowResults(results: seq<Row>)
      modifies this`rows
      ensures rows == Shown(results)
    {
      if results == [] {
        rows := [["", NoResults, "", ""]];
        return;
      }
      var shown: seq<Values> := [];
      for i := 0 to |results|
        invariant shown == seq(i, j requires 0 <= j < i => RowValues(results[j]))
      {
        shown := shown + [RowValues(results[i])];
      }
      rows := shown;
    }

    /** `_on_result_click` for the selected row's values. A row without a
        word changes nothing, nor does one that does not unpack into four
        values (the unpacking raises). */
    method OnResultClick(values: seq<string>)
      modifies this`currentFoundWord, this`currentSourcesForExport
      ensures |values| != 4 || values[1] == "" ==>
        currentFoundWord == old(currentFoundWord) && currentSourcesForExport == old(currentSourcesForExport)
      ensures |values| == 4 && values[1] != "" ==>
        currentFoundWord == Some(values[1]) && currentSourcesForExport == ShownSources(sentenceMapping, (values[3], values[1]))
    {
      if |values| != 4 || values[1] == "" {
        return;
      }
      var foundWord, position := values[1], values[3];
      currentFoundWord := Some(foundWord);
      currentSourcesForExport := ShownSources(sentenceMapping, (position, foundWord));
    }

    /** `_sort_treeview(col, reverse)`: every row, the no-result row
        included, sorted by the column's key. An unknown column leaves the
        table as it is. */
    method SortTreeview(col: string, reverse: bool)
      modifies this`rows
      ensures IndexIn(Columns, col).None? ==> rows == old(rows)
      ensures IndexIn(Columns, col).Some? ==>
        rows == SortBy(old(rows), RowKey(IndexIn(Columns, col).value, col == FrequencyColumn), reverse)
    {
      var c := IndexIn(Columns, col);
      if c.None? {
        return;
      }
      rows := SortBy(rows, RowKey(c.value, col == FrequencyColumn), reverse);
    }
  }

  // ---- Properties ----

  /** No blank keyword, no keyword without tokens, and no word condition
      without a value ever reaches the search. */
  lemma StartedSearchIsValid(keyword: string, mode: string, conditionType: string, conditionEntry: string,
                             posFilter: string, normalize: string -> string, tokenize: string -> seq<string>)
    requires Validate(keyword, mode, conditionType, conditionEntry, posFilter, normalize, tokenize).Some?
    ensures var q := Validate(keyword, mode, conditionType, conditionEntry, posFilter, normalize, tokenize).value;
      && Strip(keyword) != [] && q.tokens == tokenize(normalize(Strip(keyword)))
      && (q.filter.conditionType != NoCondition ==> Strip(conditionEntry) != [])
  {
  }

  /** For every word, the counts of its results on one side add up to the
      number of sources recorded under its position and word. */
  lemma CountsMatchSources(data: seq<Segment>, tokens: seq<string>, p: SearchParams, side: Side,
                           w: string, isW: LegacyKey -> bool)
    requires forall k: LegacyKey :: isW(k) <==> k.0 == w
    ensures Total(SideCounter(data, tokens, p, side), isW) == |Get(Mapping(Events(data, tokens, p)), (Label(side), w))|
  {
    var ev := Events(data, tokens, p);
    var ps := Join(tokens, " ");
    TallyTotal(SideKeys(ev, side, ps, LegacyKeyOf), isW);
    MappingCounts(ev, side, ps, LegacyKeyOf, w, isW);
  }

  /** Every result a search lists has recorded sources. */
  lemma ResultHasSources(data: seq<Segment>, tokens: seq<string>, p: SearchParams, r: Row)
    requires r in Search(data, tokens, p)
    ensures r.count > 0 && (r.position == Label(Before) || r.position == Label(After))
    ensures Get(Mapping(Events(data, tokens, p)), (r.position, r.word)) != []
  {
    var bs := if WantsBefore(p.mode) then ResultRows(MostCommon(SideCounter(data, tokens, p, Before)), Before) else [];
    var fs := if WantsAfter(p.mode) then ResultRows(MostCommon(SideCounter(data, tokens, p, After)), After) else [];
    assert r in bs + fs;
    if r in bs {
      SideResultHasSources(data, tokens, p, Before, r);
    } else {
      SideResultHasSources(data, tokens, p, After, r);
    }
  }

  lemma SideResultHasSources(data: seq<Segment>, tokens: seq<string>, p: SearchParams, side: Side, r: Row)
    requires r in ResultRows(MostCommon(SideCounter(data, tokens, p, side)), side)
    ensures r.position == Label(side) && r.count > 0
    ensures Get(Mapping(Events(data, tokens, p)), (r.position, r.word)) != []
  {
    var c := SideCounter(data, tokens, p, side);
    var ks := SideKeys(Events(data, tokens, p), side, Join(tokens, " "), LegacyKeyOf);
    var es := MostCommon(c);
    var i :| 0 <= i < |es| && ResultRow(es[i], side) == r;
    MostCommonEntry(ks, i);
    var w := r.word;
    var isW := (k: LegacyKey) => k.0 == w;
    CountsMatchSources(data, tokens, p, side, w, isW);
    TotalPositive(c, es[i], isW);
  }

  /** Clicking a result a search listed highlights its word and shows its
      recorded sources, each once and ascending, never the placeholder. */
  lemma ClickShowsSources(data: seq<Segment>, tokens: seq<string>, p: SearchParams, r: Row)
    requires r in Search(data, tokens, p)
    ensures var m := Mapping(Events(data, tokens, p));
      && (r.position, r.word) in m
      && ShownSources(m, (RowValues(r)[3], RowValues(r)[1])) == SortSources(m[(r.position, r.word)])
      && StrictlySorted(SortSources(m[(r.position, r.word)]))
      && (forall y :: y in SortSources(m[(r.position, r.word)]) <==> y in m[(r.position, r.word)])
  {
    var m := Mapping(Events(data, tokens, p));
    ResultHasSources(data, tokens, p, r);
    SortSourcesSpec(m[(r.position, r.word)]);
  }

  /** A search that finds nothing leaves the no-result row alone in the
      table; otherwise there is one row per result. */
  lemma ShownRows(results: seq<Row>)
    ensures results == [] ==> |Shown(results)| == 1 && Cell(Shown(results)[0], 1) == NoResults
    ensures results != [] ==>
      && |Shown(results)| == |results|
      && forall i | 0 <= i < |results| :: Cell(Shown(results)[i], 1) == results[i].word
  {
  }

  /** The results list the before side first, then the after side, each
      side by count descending. */
  lemma ResultsOrder(before: Counter<LegacyKey>, after: Counter<LegacyKey>, mode: string, a: nat, b: nat)
    requires a < b < |Results(before, after, mode)|
    ensures var r := Results(before, after, mode);
      && (r[a].position == Label(After) ==> r[b].position == Label(After))
      && (r[a].position == r[b].position ==> r[a].count >= r[b].count)
  {
    var bs := if WantsBefore(mode) then Ranked(MostCommon(before), Before) else [];
    var fs := if WantsAfter(mode) then Ranked(MostCommon(after), After) else [];
    SideDescending(before, Before, WantsBefore(mode));
    SideDescending(after, After, WantsAfter(mode));
    ConcatDescending(bs, fs, a, b);
    var rb := if WantsBefore(mode) then ResultRows(MostCommon(before), Before) else [];
    var rf := if WantsAfter(mode) then ResultRows(MostCommon(after), After) else [];
    var r := Results(before, after, mode);
    assert r == rb + rf && |rb| == |bs| && |rf| == |fs|;
    forall i | 0 <= i < |r|
      ensures r[i].position == (bs + fs)[i].0 && r[i].count == (bs + fs)[i].1
    {
      if i < |rb| {
        assert r[i] == rb[i] && (bs + fs)[i] == bs[i];
      } else {
        assert r[i] == rf[i - |rb|] && (bs + fs)[i] == fs[i - |bs|];
      }
    }
  }

  /** The reordered text keeps the text's pieces and its occurrences of the
      word: it is as long as the text, the word occurs between the same
      number of pieces, and the pieces come in reverse order. */
  lemma ReorderKeepsPieces(text: string, word: string)
    requires word != [] && Contains(text, word)
    ensures var pieces := SplitOn(text, word);
      && Join(pieces, word) == text
      && |pieces| >= 2
      && (forall c | c in pieces :: !Contains(c, word))
      && |Join(Reverse(pieces), word)| == |text|
  {
    var pieces := SplitOn(text, word);
    SplitFromJoin(text, word, 0);
    SplitOnCount(text, word);
    SplitFromFree(text, word, 0);
    SplitFromLength(text, word, 0);
    JoinLength(pieces, word);
    JoinLength(Reverse(pieces), word);
    SumLenReverse(pieces);
  }

  /** The documented example, on two pieces: they come back in reverse
      order around the highlight; the code as written fails on the same
      input. */
  lemma ReorderExample(text: string, word: string)
    requires text == "aHb" && word == "H"
    ensures Join(Reverse(SplitOn(text, word)), word) == "bHa"
    ensures ReorderAsWritten(text, word).Err?
  {
    ExampleSplit(text, word);
    assert Reverse(["a", "b"]) == ["b", "a"];
    JoinAppend(["b"], "a", word);
    assert ["b"] + ["a"] == ["b", "a"];
  }

  /** The example's text splits into the pieces either side of the word. */
  lemma ExampleSplit(text: string, word: string)
    requires text == "aHb" && word == "H"
    ensures SplitOn(text, word) == ["a", "b"]
  {
    assert text[0..1] == "a" && text[1..2] == word && text[2..] == "b";
    assert !OccursAt(text, word, 0) && !OccursAt(text, word, 2);
    assert FindFrom(text, word, 0) == Some(1);
    assert FindFrom(text, word, 2) == None;
    SplitFromRest(text, word, 2);
    SplitFromMatch(text, word, 0, 1);
  }
}
