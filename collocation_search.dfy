/** The current application (`Collocation_Search.py`): a search over the
    tagged corpus in one of two modes, the provenance shown when a result is
    clicked, the reordering of a source paragraph around the highlighted
    phrase, and the column sort of the results table.

    The application object keeps the corpus, the two provenance maps the last
    search filled, the word and sources of the last clicked result, and the
    rows of the results table. */
module CollocationSearch {
  import opened Wrappers
  import opened Strings
  import opened Counters
  import opened Sorting
  import opened Filters
  import opened PosTable
  import opened Provenance
  import opened Corpus
  import opened Chunks
  import opened ResultTable
  import opened NeighbourScan

  /** Search types. */
  const SubstringMode := "عین عبارت کلیدی"
  const NeighbourMode := "کلمات مجاور"
  /** Position cells of the direct rows. */
  const KeywordPosition := "عبارت کلیدی"
  const PartialPosition := "تطابق جزئی"
  /** The word cell of the row shown when nothing was found. */
  const NoResults := "هیچ نتیجه‌ای یافت نشد."

  /** A result row: sample text, word, friendly role, count, position. */
  datatype Row = Row(sample: string, word: string, pos: string, count: nat, position: string)

  /** A neighbour counter key: (word, tag, sample). */
  type NeighbourKey = (string, string, string)

  function NeighbourKeyOf(e: Event, phrase: string): NeighbourKey {
    (e.token.0, e.token.1, Sample(e, phrase))
  }

  function NeighbourRow(entry: (NeighbourKey, nat), side: Side): Row {
    Row(entry.0.2, entry.0.0, FriendlyPos(entry.0.1), entry.1, Label(side))
  }

  function NeighbourRows(entries: seq<(NeighbourKey, nat)>, side: Side): seq<Row> {
    seq(|entries|, i requires 0 <= i < |entries| => NeighbourRow(entries[i], side))
  }

  function SubstringRow(entry: (Token, nat), phrase: string): Row {
    Row(entry.0.0 + " (" + phrase + ")", entry.0.0, FriendlyPos(entry.0.1), entry.1, PartialPosition)
  }

  function SubstringRows(entries: seq<(Token, nat)>, phrase: string): seq<Row> {
    seq(|entries|, i requires 0 <= i < |entries| => SubstringRow(entries[i], phrase))
  }

  /** What a search produces: the direct rows, the neighbour rows, and the
      two provenance maps. */
  datatype Outcome = Outcome(
    direct: seq<Row>,
    colloc: seq<Row>,
    mapping: map<(string, string), seq<SourceRef>>,
    sources: map<string, seq<SourceRef>>)

  const Nothing := Outcome([], [], map[], map[])

  /** The counter of one side of a neighbour search. */
  function SideCounter(data: seq<Segment>, tokens: seq<string>, p: SearchParams, side: Side): Counter<NeighbourKey> {
    Tally(SideKeys(Events(data, tokens, p), side, Join(tokens, " "), NeighbourKeyOf))
  }

  /** A substring search for the normalised phrase `np`: a blank phrase
      gives no rows. */
  function SubstringSearch(data: seq<Segment>, phrase: string, np: string, normalize: string -> string): Outcome {
    if Strip(np) == [] then Nothing
    else
      var hits := SubHits(data, np, normalize);
      Outcome(SubstringRows(MostCommon(Tally(HitTokens(hits))), phrase), [], map[], HitSources(hits))
  }

  /** The keyword row: present when the phrase occurs, with the number of
      occurrences. */
  function KeywordRows(phrase: string, n: nat): seq<Row> {
    if n > 0 then [Row(phrase, phrase, "-", n, KeywordPosition)] else []
  }

  /** The sources of the keyword row. */
  function KeywordSources(phrase: string, exact: seq<SourceRef>): map<string, seq<SourceRef>> {
    if |exact| > 0 then map[phrase := exact] else map[]
  }

  /** The neighbour rows: the before side, then the after side, as far as
      the mode asks for them, each by `most_common`. */
  function Colloc(before: Counter<NeighbourKey>, after: Counter<NeighbourKey>, mode: string): seq<Row> {
    (if WantsBefore(mode) then NeighbourRows(MostCommon(before), Before) else [])
    + (if WantsAfter(mode) then NeighbourRows(MostCommon(after), After) else [])
  }

  /** A neighbour search for the phrase's tokens: no tokens give no rows. */
  function NeighbourSearch(data: seq<Segment>, phrase: string, tokens: seq<string>, p: SearchParams): Outcome {
    if tokens == [] then Nothing
    else
      Outcome(
        KeywordRows(phrase, |Exact(data, tokens)|),
        Colloc(SideCounter(data, tokens, p, Before), SideCounter(data, tokens, p, After), p.mode),
        Mapping(Events(data, tokens, p)),
        KeywordSources(phrase, Exact(data, tokens)))
  }

  /** `_perform_search`: both provenance maps start empty, so what they hold
      afterwards comes from this search alone; an unknown search type gives
      no rows. */
  function Search(data: seq<Segment>, searchType: string, phrase: string, p: SearchParams,
                  normalize: string -> string, tokenize: string -> seq<string>): Outcome
  {
    if searchType == SubstringMode then SubstringSearch(data, phrase, normalize(phrase), normalize)
    else if searchType == NeighbourMode then NeighbourSearch(data, phrase, tokenize(normalize(phrase)), p)
    else Nothing
  }

  // ---- The neighbour scan ----

  /** Recording the neighbours of one matching window. */
  method ScanWindow(g: Segment, tokens: seq<string>, p: SearchParams, ps: string, i: nat,
                    before: Counter<NeighbourKey>, after: Counter<NeighbourKey>,
                    mapping: map<(string, string), seq<SourceRef>>)
    returns (before': Counter<NeighbourKey>, after': Counter<NeighbourKey>, mapping': map<(string, string), seq<SourceRef>>)
    requires MatchAt(g, tokens, i)
    requires DistinctKeys(before) && DistinctKeys(after)
    ensures ScanState(before', after', mapping') == ApplyAll(ScanState(before, after, mapping), EventsAt(g, tokens, p, i), ps, NeighbourKeyOf)
  {
    var hasFilters := HasFilters(p);
    before', mapping' := RecordBefore(g, p, ps, i, hasFilters, before, after, mapping);
    after', mapping' := RecordAfter(g, tokens, p, ps, i, hasFilters, before', after, mapping');
    ApplyAllAppend(ScanState(before, after, mapping), BeforeAt(g, p, i), AfterAt(g, tokens, p, i), ps, NeighbourKeyOf);
  }

  /** The word before the window, when the mode asks for it and it passes
      the filters. */
  method RecordBefore(g: Segment, p: SearchParams, ps: string, i: nat, hasFilters: bool,
                      before: Counter<NeighbourKey>, after: Counter<NeighbourKey>,
                      mapping: map<(string, string), seq<SourceRef>>)
    returns (before': Counter<NeighbourKey>, mapping': map<(string, string), seq<SourceRef>>)
    requires i <= |g.tagged| && hasFilters == HasFilters(p)
    requires DistinctKeys(before) && DistinctKeys(after)
    ensures DistinctKeys(before')
    ensures ScanState(before', after, mapping') == ApplyAll(ScanState(before, after, mapping), BeforeAt(g, p, i), ps, NeighbourKeyOf)
  {
    before', mapping' := before, mapping;
    if WantsBefore(p.mode) && i > 0 {
      var prev := g.tagged[i - 1];
      if !hasFilters || CheckFilters(prev.0, prev.1, p) {
        ApplyBefore(ScanState(before, after, mapping), Event(Before, prev, Ref(g)), ps, NeighbourKeyOf);
        before' := Increment(before, (prev.0, prev.1, prev.0 + " " + ps));
        mapping' := Add(mapping, (Label(Before), prev.0), Ref(g));
      }
    }
  }

  /** The word after the window, likewise. */
  method RecordAfter(g: Segment, tokens: seq<string>, p: SearchParams, ps: string, i: nat, hasFilters: bool,
                     before: Counter<NeighbourKey>, after: Counter<NeighbourKey>,
                     mapping: map<(string, string), seq<SourceRef>>)
    returns (after': Counter<NeighbourKey>, mapping': map<(string, string), seq<SourceRef>>)
    requires hasFilters == HasFilters(p)
    requires DistinctKeys(before) && DistinctKeys(after)
    ensures DistinctKeys(after')
    ensures ScanState(before, after', mapping') == ApplyAll(ScanState(before, after, mapping), AfterAt(g, tokens, p, i), ps, NeighbourKeyOf)
  {
    after', mapping' := after, mapping;
    if WantsAfter(p.mode) && i + |tokens| < |g.tagged| {
      var next := g.tagged[i + |tokens|];
      if !hasFilters || CheckFilters(next.0, next.1, p) {
        ApplyAfter(ScanState(before, after, mapping), Event(After, next, Ref(g)), ps, NeighbourKeyOf);
        after' := Increment(after, (next.0, next.1, ps + " " + next.0));
        mapping' := Add(mapping, (Label(After), next.0), Ref(g));
      }
    }
  }

  /** The windows of one segment. */
  method ScanWindows(g: Segment, tokens: seq<string>, p: SearchParams, ps: string,
                     count: nat, exact: seq<SourceRef>,
                     before: Counter<NeighbourKey>, after: Counter<NeighbourKey>,
                     mapping: map<(string, string), seq<SourceRef>>)
    returns (count': nat, exact': seq<SourceRef>, before': Counter<NeighbourKey>, after': Counter<NeighbourKey>,
             mapping': map<(string, string), seq<SourceRef>>)
    requires count == |exact|
    requires DistinctKeys(before) && DistinctKeys(after)
    ensures exact' == exact + SegExact(g, tokens, Windows(|g.tagged|, |tokens|)) && count' == |exact'|
    ensures ScanState(before', after', mapping')
         == ApplyAll(ScanState(before, after, mapping), SegEvents(g, tokens, p, Windows(|g.tagged|, |tokens|)), ps, NeighbourKeyOf)
  {
    ghost var s := ScanState(before, after, mapping);
    count', exact', before', after', mapping' := count, exact, before, after, mapping;
    var words := Words(g.tagged);
    var w := Windows(|g.tagged|, |tokens|);
    for i := 0 to w
      invariant exact' == exact + SegExact(g, tokens, i) && count' == |exact'|
      invariant ScanState(before', after', mapping') == ApplyAll(s, SegEvents(g, tokens, p, i), ps, NeighbourKeyOf)
    {
      ApplyAllAppend(s, SegEvents(g, tokens, p, i), EventsAt(g, tokens, p, i), ps, NeighbourKeyOf);
      ghost var found := if MatchAt(g, tokens, i) then [Ref(g)] else [];
      AppendAssoc(exact, SegExact(g, tokens, i), found);
      count', exact', before', after', mapping' := ScanAt(g, tokens, p, ps, words, i, count', exact', before', after', mapping');
    }
  }

  /** One window of a segment: when the words there are the tokens, the
      occurrence is counted and its neighbours are recorded. */
  method ScanAt(g: Segment, tokens: seq<string>, p: SearchParams, ps: string, words: seq<string>, i: nat,
                count: nat, exact: seq<SourceRef>,
                before: Counter<NeighbourKey>, after: Counter<NeighbourKey>,
                mapping: map<(string, string), seq<SourceRef>>)
    returns (count': nat, exact': seq<SourceRef>, before': Counter<NeighbourKey>, after': Counter<NeighbourKey>,
             mapping': map<(string, string), seq<SourceRef>>)
    requires words == Words(g.tagged) && i < Windows(|g.tagged|, |tokens|)
    requires count == |exact|
    requires DistinctKeys(before) && DistinctKeys(after)
    ensures exact' == exact + (if MatchAt(g, tokens, i) then [Ref(g)] else []) && count' == |exact'|
    ensures ScanState(before', after', mapping') == ApplyAll(ScanState(before, after, mapping), EventsAt(g, tokens, p, i), ps, NeighbourKeyOf)
  {
    if words[i..i + |tokens|] == tokens {
      count', exact' := count + 1, exact + [Ref(g)];
      before', after', mapping' := ScanWindow(g, tokens, p, ps, i, before, after, mapping);
    } else {
      count', exact', before', after', mapping' := count, exact, before, after, mapping;
      assert !MatchAt(g, tokens, i);
      assert exact + [] == exact;
    }
  }

  /** The window loop over the whole corpus. */
  method ScanNeighbours(data: seq<Segment>, tokens: seq<string>, p: SearchParams)
    returns (count: nat, exact: seq<SourceRef>, before: Counter<NeighbourKey>, after: Counter<NeighbourKey>,
             mapping: map<(string, string), seq<SourceRef>>)
    ensures exact == Exact(data, tokens) && count == |exact|
    ensures before == SideCounter(data, tokens, p, Before)
    ensures after == SideCounter(data, tokens, p, After)
    ensures mapping == Mapping(Events(data, tokens, p))
  {
    var ps := Join(tokens, " ");
    count, exact, before, after, mapping := 0, [], [], [], map[];
    for k := 0 to |data|
      invariant exact == Exact(data[..k], tokens) && count == |exact|
      invariant ScanState(before, after, mapping) == ApplyAll(Start(), Events(data[..k], tokens, p), ps, NeighbourKeyOf)
    {
      assert data[..k + 1][..k] == data[..k] && data[..k + 1][k] == data[k];
      ApplyAllAppend(Start(), Events(data[..k], tokens, p), SegEvents(data[k], tokens, p, Windows(|data[k].tagged|, |tokens|)), ps, NeighbourKeyOf);
      count, exact, before, after, mapping := ScanWindows(data[k], tokens, p, ps, count, exact, before, after, mapping);
    }
    assert data[..|data|] == data;
    ApplyAllCounts(Events(data, tokens, p), Before, ps, NeighbourKeyOf);
    ApplyAllCounts(Events(data, tokens, p), After, ps, NeighbourKeyOf);
    ApplyAllMapping(Events(data, tokens, p), ps, NeighbourKeyOf);
  }

  /** The first token of `tagged` whose normalised word contains `np`, as
      the `for ... break` loop finds it. */
  method FindHit(tagged: seq<Token>, np: string, normalize: string -> string) returns (r: Option<nat>)
    ensures r == FirstHit(tagged, np, normalize)
  {
    var j := 0;
    while j < |tagged| && !Contains(normalize(tagged[j].0), np)
      invariant j <= |tagged|
      invariant forall m | 0 <= m < j :: !Contains(normalize(tagged[m].0), np)
    {
      j := j + 1;
    }
    var f := FirstHit(tagged, np, normalize);
    if j < |tagged| {
      r := Some(j);
      assert f.Some? && !(f.value < j) && !(j < f.value);
    } else {
      r := None;
    }
  }

  lemma HitStep(hits: seq<(Token, SourceRef)>, h: (Token, SourceRef))
    ensures Tally(HitTokens(hits + [h])) == Increment(Tally(HitTokens(hits)), h.0)
    ensures HitSources(hits + [h]) == Add(HitSources(hits), h.0.0, h.1)
  {
    assert (hits + [h])[..|hits|] == hits;
    assert HitTokens(hits + [h]) == HitTokens(hits) + [h.0];
    TallySnoc(HitTokens(hits), h.0);
  }

  /** What one segment adds to a substring search. */
  method ScanSegment(g: Segment, np: string, normalize: string -> string,
                     counter: Counter<Token>, sources: map<string, seq<SourceRef>>, ghost hits: seq<(Token, SourceRef)>)
    returns (counter': Counter<Token>, sources': map<string, seq<SourceRef>>)
    requires counter == Tally(HitTokens(hits)) && sources == HitSources(hits)
    ensures counter' == Tally(HitTokens(hits + SegHit(g, np, normalize)))
    ensures sources' == HitSources(hits + SegHit(g, np, normalize))
  {
    counter', sources' := counter, sources;
    if Contains(normalize(g.sentence), np) {
      var hit := FindHit(g.tagged, np, normalize);
      if hit.Some? {
        var t := g.tagged[hit.value];
        HitStep(hits, (t, Ref(g)));
        counter' := Increment(counter, t);
        sources' := Add(sources, t.0, Ref(g));
        return;
      }
    }
    assert hits + SegHit(g, np, normalize) == hits;
  }

  /** The substring-mode loop over the corpus. */
  method ScanSubstring(data: seq<Segment>, np: string, normalize: string -> string)
    returns (counter: Counter<Token>, sources: map<string, seq<SourceRef>>)
    ensures counter == Tally(HitTokens(SubHits(data, np, normalize)))
    ensures sources == HitSources(SubHits(data, np, normalize))
  {
    counter, sources := [], map[];
    for k := 0 to |data|
      invariant counter == Tally(HitTokens(SubHits(data[..k], np, normalize)))
      invariant sources == HitSources(SubHits(data[..k], np, normalize))
    {
      assert data[..k + 1][..k] == data[..k] && data[..k + 1][k] == data[k];
      counter, sources := ScanSegment(data[k], np, normalize, counter, sources, SubHits(data[..k], np, normalize));
    }
    assert data[..|data|] == data;
  }

  /** The rows listing a counter's entries by `most_common`. */
  method ListNeighbours(c: Counter<NeighbourKey>, side: Side) returns (rows: seq<Row>)
    ensures rows == NeighbourRows(MostCommon(c), side)
  {
    var entries := MostCommon(c);
    rows := [];
    for i := 0 to |entries|
      invariant rows == NeighbourRows(entries[..i], side)
    {
      rows := rows + [NeighbourRow(entries[i], side)];
    }
    assert entries[..|entries|] == entries;
  }

  method ListSubstrings(c: Counter<Token>, phrase: string) returns (rows: seq<Row>)
    ensures rows == SubstringRows(MostCommon(c), phrase)
  {
    var entries := MostCommon(c);
    rows := [];
    for i := 0 to |entries|
      invariant rows == SubstringRows(entries[..i], phrase)
    {
      rows := rows + [SubstringRow(entries[i], phrase)];
    }
    assert entries[..|entries|] == entries;
  }

  /** The substring branch of `_perform_search`. */
  method RunSubstring(data: seq<Segment>, phrase: string, np: string, normalize: string -> string) returns (o: Outcome)
    ensures o == SubstringSearch(data, phrase, np, normalize)
  {
    if Strip(np) == [] {
      return Nothing;
    }
    var counter, sources := ScanSubstring(data, np, normalize);
    var direct := ListSubstrings(counter, phrase);
    o := Outcome(direct, [], map[], sources);
  }

  /** The neighbour rows, listed side by side. */
  method ListColloc(before: Counter<NeighbourKey>, after: Counter<NeighbourKey>, mode: string) returns (rows: seq<Row>)
    ensures rows == Colloc(before, after, mode)
  {
    rows := [];
    if WantsBefore(mode) {
      var rs := ListNeighbours(before, Before);
      rows := rows + rs;
    }
    if WantsAfter(mode) {
      var rs := ListNeighbours(after, After);
      rows := rows + rs;
    }
  }

  /** The neighbour branch of `_perform_search`. */
  method RunNeighbours(data: seq<Segment>, phrase: string, tokens: seq<string>, p: SearchParams) returns (o: Outcome)
    ensures o == NeighbourSearch(data, phrase, tokens, p)
  {
    if tokens == [] {
      return Nothing;
    }
    var count, exact, before, after, mapping := ScanNeighbours(data, tokens, p);
    var direct: seq<Row> := [];
    var sources: map<string, seq<SourceRef>> := map[];
    if count > 0 {
      direct := [Row(phrase, phrase, "-", count, KeywordPosition)];
      sources := sources[phrase := exact];
    }
    var colloc := ListColloc(before, after, p.mode);
    o := Outcome(direct, colloc, mapping, sources);
  }

  /** The search itself, by search type. */
  method RunSearch(data: seq<Segment>, searchType: string, phrase: string, p: SearchParams,
                   normalize: string -> string, tokenize: string -> seq<string>) returns (o: Outcome)
    ensures o == Search(data, searchType, phrase, p, normalize, tokenize)
  {
    o := Nothing;
    if searchType == SubstringMode {
      o := RunSubstring(data, phrase, normalize(phrase), normalize);
    } else if searchType == NeighbourMode {
      o := RunNeighbours(data, phrase, tokenize(normalize(phrase)), p);
    }
  }

  // ---- Result click and the bidi reorder ----

  const DirectTag := "direct_hit"
  const SubstringTag := "substring_hit"
  const NeighbourTag := "collocation_hit"

  /** The sources shown for a result: the recorded list as a sorted set, or
      a one-line placeholder when nothing was recorded. */
  function Shown(refs: seq<SourceRef>, placeholder: string): seq<SourceRef> {
    if refs == [] then [(placeholder, "")] else SortSources(refs)
  }

  /** `_on_result_click` on a row with at least five values: the word to
      highlight and the sources to show, chosen by the row's tag. */
  function Click(values: seq<string>, tags: seq<string>, direct: map<string, seq<SourceRef>>,
                 mapping: map<(string, string), seq<SourceRef>>): (Option<string>, seq<SourceRef>)
    requires |values| >= 5
  {
    var term := values[1];
    if DirectTag in tags then (Some(term), Shown(Get(direct, term), "جمله‌ای برای عبارت کلیدی یافت نشد."))
    else if SubstringTag in tags then (Some(term), Shown(Get(direct, term), "جمله‌ای برای این کلمه یافت نشد."))
    else if NeighbourTag in tags then (Some(term), Shown(Get(mapping, (values[4], term)), "جمله‌ای برای این کلمه هم‌نشین یافت نشد."))
    else (None, [("نوع نتیجه نامشخص است.", "")])
  }

  /** Highlight reordering models. */
  const Model1 := "مدل ۱ (عادی)"
  const Model2 := "مدل ۲ (معکوس کامل)"
  const Model3 := "مدل ۳ (جفت آخر عادی)"
  const Model4 := "مدل ۴ (جفت اول عادی)"

  predicate KnownModel(model: string) {
    model == Model1 || model == Model2 || model == Model3 || model == Model4
  }

  /** The text segments in the order a model lays them out; an unknown model
      lays out none. */
  function Reorder(segs: seq<string>, model: string): seq<string> {
    if model == Model1 then segs
    else if model == Model2 then Strings.Reverse(segs)
    else if model == Model3 then KeepLastPair(segs)
    else if model == Model4 then KeepFirstPair(segs)
    else []
  }

  /** All but the last two segments reversed, then the last two as they were. */
  function KeepLastPair(segs: seq<string>): seq<string> {
    if |segs| >= 2 then Strings.Reverse(segs[..|segs| - 2]) + segs[|segs| - 2..] else segs
  }

  /** The first two segments as they were, then the rest reversed. */
  function KeepFirstPair(segs: seq<string>): seq<string> {
    if |segs| >= 2 then segs[..2] + Strings.Reverse(segs[2..]) else segs
  }

  /** `[s.strip() for s in segs]` */
  function StripAll(segs: seq<string>): (r: seq<string>)
    ensures |r| == |segs|
  {
    if segs == [] then [] else StripAll(segs[..|segs| - 1]) + [Strip(segs[|segs| - 1])]
  }

  /** `_reorder_text_for_bidi_fix`: a text without the phrase comes back as
      it is; otherwise the pieces around the phrase, laid out by the model
      and stripped, are joined by the phrase with one space on each side. */
  method ReorderForBidi(text: string, phrase: Option<string>, model: string) returns (r: string)
    ensures phrase.None? || phrase.value == [] || !Contains(text, phrase.value) ==> r == text
    ensures phrase.Some? && phrase.value != [] && Contains(text, phrase.value) ==>
      r == Join(StripAll(Reorder(SplitOn(text, phrase.value), model)), " " + phrase.value + " ")
  {
    if phrase.None? || phrase.value == [] || !Contains(text, phrase.value) {
      return text;
    }
    var p := phrase.value;
    var segs := SplitOn(text, p);
    var reordered := Reorder(segs, model);
    ReorderLength(segs, model);
    r := Lay(reordered, |segs| - 1, " " + p + " ");
  }

  /** The assembly loop: each stripped segment, followed by the padded
      delimiter while delimiters remain. With one delimiter fewer than
      segments, that is the stripped segments joined by the delimiter. */
  method Lay(rs: seq<string>, delims: nat, sep: string) returns (r: string)
    requires rs == [] || |rs| == delims + 1
    ensures r == Join(StripAll(rs), sep)
  {
    var parts: seq<string> := [];
    for i := 0 to |rs|
      invariant i == 0 ==> Concat(parts) == ""
      invariant 0 < i ==> Concat(parts) == Join(StripAll(rs[..i]), sep) + (if i <= delims then sep else "")
    {
      parts := LayOne(rs, delims, sep, parts, i);
    }
    assert rs[..|rs|] == rs;
    r := Concat(parts);
  }

  /** One round of the assembly loop: the stripped segment `i`, then the
      delimiter while one remains. */
  method LayOne(rs: seq<string>, delims: nat, sep: string, parts: seq<string>, i: nat) returns (parts': seq<string>)
    requires i < |rs| == delims + 1
    requires i == 0 ==> Concat(parts) == ""
    requires 0 < i ==> Concat(parts) == Join(StripAll(rs[..i]), sep) + sep
    ensures i < delims ==> Concat(parts') == Join(StripAll(rs[..i + 1]), sep) + sep
    ensures i == delims ==> Concat(parts') == Join(StripAll(rs[..i + 1]), sep)
  {
    var x := Strip(rs[i]);
    ghost var acc := Concat(parts);
    ghost var done := StripAll(rs[..i]);
    StripAllStep(rs, i);
    JoinStep(done, x, sep, acc);
    ConcatOne(parts, x);
    parts' := parts + [x];
    assert Concat(parts') == Join(StripAll(rs[..i + 1]), sep);
    if i < delims {
      ConcatOne(parts', sep);
      parts' := parts' + [sep];
    }
  }

  lemma StripAllStep(rs: seq<string>, i: nat)
    requires i < |rs|
    ensures StripAll(rs[..i + 1]) == StripAll(rs[..i]) + [Strip(rs[i])]
  {
    assert rs[..i + 1][..i] == rs[..i];
  }

  // ---- Column sort ----

  const Columns := ["نمونه", "کلمه", "نقش دستوری", "فراوانی", "موقعیت"]
  const FrequencyColumn := "فراوانی"
  /** The index of the "word" column, whose cell marks the no-result row. */
  const WordColumn := 1

  /** The table after a sort on column `c`: the rows that are not the
      no-result row, sorted, then the no-result rows in their old order. */
  function Arranged(rows: seq<Values>, c: nat, numeric: bool, reverse: bool): seq<Values> {
    SortBy(Without(rows, WordColumn, NoResults), RowKey(c, numeric), reverse) + Only(rows, WordColumn, NoResults)
  }

  // ---- Starting a search and showing its results ----

  /** What `_start_search` hands to the search thread: the stripped phrase
      and the filter settings with the normalised condition value. */
  datatype Request = Request(phrase: string, filter: SearchParams)

  /** `_start_search`'s checks: a blank keyword starts no search, nor does a
      neighbour search with a word condition but no value; the substring
      mode ignores the condition entirely. */
  function Validate(keyword: string, searchType: string, mode: string, conditionType: string, conditionEntry: string,
                    posFilter: string, normalize: string -> string): (r: Option<Request>)
    ensures r.Some? <==>
      && Strip(keyword) != []
      && (searchType != NeighbourMode || conditionType == NoCondition || Strip(conditionEntry) != [])
    ensures r.Some? ==>
      && r.value.phrase == Strip(keyword)
      && r.value.filter == SearchParams(mode, conditionType, normalize(Strip(conditionEntry)), posFilter)
  {
    var phrase := Strip(keyword);
    var value := Strip(conditionEntry);
    if phrase == [] || (searchType == NeighbourMode && conditionType != NoCondition && value == []) then None
    else Some(Request(phrase, SearchParams(mode, conditionType, normalize(value), posFilter)))
  }

  /** The table `_update_ui_with_results` fills: the direct rows, then the
      neighbour rows, or the one no-result row when there are none. */
  function Displayed(direct: seq<Row>, colloc: seq<Row>): seq<Values> {
    if direct + colloc == [] then [["", NoResults, "", "", ""]]
    else seq(|direct + colloc|, i requires 0 <= i < |direct + colloc| => RowValues((direct + colloc)[i]))
  }

  class App {
    var taggedData: seq<Segment>
    var sentenceMapping: map<(string, string), seq<SourceRef>>
    var directPhraseSources: map<string, seq<SourceRef>>
    var currentFoundWord: Option<string>
    var currentSourcesForExport: seq<SourceRef>
    var lastSearchPhrase: string
    /** The rows of the results table, top to bottom. */
    var rows: seq<Values>

    constructor(data: seq<Segment>)
      ensures taggedData == data && rows == []
      ensures sentenceMapping == map[] && directPhraseSources == map[]
      ensures currentFoundWord == None && currentSourcesForExport == [] && lastSearchPhrase == ""
    {
      taggedData := data;
      lastSearchPhrase := "";
      sentenceMapping := map[];
      directPhraseSources := map[];
      currentFoundWord := None;
      currentSourcesForExport := [];
      rows := [];
    }

    /** `_start_search`: a non-blank keyword becomes the last searched
        phrase; a search that passes the checks clears the table and is
        handed its request. */
    method StartSearch(keyword: string, searchType: string, mode: string, conditionType: string,
                       conditionEntry: string, posFilter: string, normalize: string -> string)
      returns (request: Option<Request>)
      modifies this`lastSearchPhrase, this`rows
      ensures request == Validate(keyword, searchType, mode, conditionType, conditionEntry, posFilter, normalize)
      ensures lastSearchPhrase == if Strip(keyword) == [] then old(lastSearchPhrase) else Strip(keyword)
      ensures rows == if request.Some? then [] else old(rows)
    {
      request := None;
      var phrase := Strip(keyword);
      if phrase == [] {
        return;
      }
      lastSearchPhrase := phrase;
      ghost var expected := Validate(keyword, searchType, mode, conditionType, conditionEntry, posFilter, normalize);
      if searchType == NeighbourMode {
        var conditionValue := Strip(conditionEntry);
        if conditionType != NoCondition && conditionValue == [] {
          assert expected.None?;
          return;
        }
      }
      rows := [];
      request := Some(Request(phrase, SearchParams(mode, conditionType, normalize(Strip(conditionEntry)), posFilter)));
      assert expected.Some? && request.value == expected.value;
    }
    /** `_update_ui_with_results`: the table shows the direct rows, then the
        neighbour rows, or the no-result row. */
    method ShowResults(direct: seq<Row>, colloc: seq<Row>)
      modifies this`rows
      ensures rows == Displayed(direct, colloc)
    {
      var shown: seq<Values> := [];
      for i := 0 to |direct|
        invariant shown == seq(i, j requires 0 <= j < i => RowValues(direct[j]))
      {
        shown := shown + [RowValues(direct[i])];
      }
      for i := 0 to |colloc|
        invariant shown == seq(|direct| + i, j requires 0 <= j < |direct| + i => RowValues((direct + colloc)[j]))
      {
        shown := shown + [RowValues(colloc[i])];
      }
      if shown == [] {
        shown := [["", NoResults, "", "", ""]];
      }
      rows := shown;
    }
    /** `_perform_search`: returns the direct rows and the neighbour rows and
        leaves in the two provenance maps what this search recorded. */
    method PerformSearch(searchType: string, phrase: string, p: SearchParams,
                         normalize: string -> string, tokenize: string -> seq<string>)
      returns (direct: seq<Row>, colloc: seq<Row>)
      modifies this`sentenceMapping, this`directPhraseSources
      ensures Outcome(direct, colloc, sentenceMapping, directPhraseSources)
           == Search(taggedData, searchType, phrase, p, normalize, tokenize)
    {
      directPhraseSources := map[];
      sentenceMapping := map[];
      var o := RunSearch(taggedData, searchType, phrase, p, normalize, tokenize);
      direct, colloc := o.direct, o.colloc;
      sentenceMapping := o.mapping;
      directPhraseSources := o.sources;
    }

    /** `_on_result_click` for the selected row's values and tags. A row with
        fewer than five values, or the no-result row, changes nothing. */
    method OnResultClick(values: seq<string>, tags: seq<string>)
      modifies this`currentFoundWord, this`currentSourcesForExport
      ensures |values| < 5 || values[1] == NoResults ==>
        currentFoundWord == old(currentFoundWord) && currentSourcesForExport == old(currentSourcesForExport)
      ensures |values| >= 5 && values[1] != NoResults ==>
        (currentFoundWord, currentSourcesForExport) == Click(values, tags, directPhraseSources, sentenceMapping)
    {
      if |values| < 5 || values[1] == NoResults {
        return;
      }
      var term := values[1];
      var position := values[4];
      currentFoundWord := None;
      var shown: seq<SourceRef>;
      if DirectTag in tags {
        currentFoundWord := Some(term);
        shown := Shown(Get(directPhraseSources, term), "جمله‌ای برای عبارت کلیدی یافت نشد.");
      } else if SubstringTag in tags {
        currentFoundWord := Some(term);
        shown := Shown(Get(directPhraseSources, term), "جمله‌ای برای این کلمه یافت نشد.");
      } else if NeighbourTag in tags {
        currentFoundWord := Some(term);
        shown := Shown(Get(sentenceMapping, (position, term)), "جمله‌ای برای این کلمه هم‌نشین یافت نشد.");
      } else {
        shown := [("نوع نتیجه نامشخص است.", "")];
      }
      currentSourcesForExport := shown;
    }

    /** `_sort_treeview(col, reverse)`. An unknown column leaves the table as
        it is. */
    method SortTreeview(col: string, reverse: bool)
      modifies this`rows
      ensures IndexIn(Columns, col).None? ==> rows == old(rows)
      ensures IndexIn(Columns, col).Some? ==>
        rows == Arranged(old(rows), IndexIn(Columns, col).value, col == FrequencyColumn, reverse)
    {
      var c := IndexIn(Columns, col);
      if c.None? {
        return;
      }
      var data: seq<Values> := [];
      var rest: seq<Values> := [];
      for k := 0 to |rows|
        invariant data == Without(rows[..k], WordColumn, NoResults)
        invariant rest == Only(rows[..k], WordColumn, NoResults)
      {
        assert rows[..k + 1][..k] == rows[..k] && rows[..k + 1][k] == rows[k];
        if Cell(rows[k], WordColumn) != NoResults {
          data := data + [rows[k]];
        } else {
          rest := rest + [rows[k]];
        }
      }
      assert rows[..|rows|] == rows;
      data := SortBy(data, RowKey(c.value, col == FrequencyColumn), reverse);
      rows := data + rest;
    }
  }

  // ---- Properties ----

  /** For every word, the counts of the neighbour rows on one side with that
      word add up to the number of sources recorded under its position and
      word. */
  lemma NeighbourCountsMatchSources(data: seq<Segment>, tokens: seq<string>, p: SearchParams, side: Side,
                                    w: string, isW: NeighbourKey -> bool)
    requires forall k: NeighbourKey :: isW(k) <==> k.0 == w
    ensures Total(SideCounter(data, tokens, p, side), isW) == |Get(Mapping(Events(data, tokens, p)), (Label(side), w))|
  {
    var ev := Events(data, tokens, p);
    var ps := Join(tokens, " ");
    TallyTotal(SideKeys(ev, side, ps, NeighbourKeyOf), isW);
    MappingCounts(ev, side, ps, NeighbourKeyOf, w, isW);
  }

  /** In substring mode, the counts of a word over its tags add up to the
      number of sources recorded for the word. */
  lemma SubstringCountsMatchSources(data: seq<Segment>, np: string, normalize: string -> string,
                                    w: string, isW: Token -> bool)
    requires forall t: Token :: isW(t) <==> t.0 == w
    ensures Total(Tally(HitTokens(SubHits(data, np, normalize))), isW) == |Get(HitSources(SubHits(data, np, normalize)), w)|
  {
    TallyTotal(HitTokens(SubHits(data, np, normalize)), isW);
    HitCounts(SubHits(data, np, normalize), w, isW);
  }

  /** Clicking any neighbour row a search produced shows recorded sources,
      never the placeholder. */
  lemma NeighbourRowHasSources(data: seq<Segment>, tokens: seq<string>, p: SearchParams, side: Side, r: Row)
    requires r in NeighbourRows(MostCommon(SideCounter(data, tokens, p, side)), side)
    ensures r.position == Label(side) && r.count > 0
    ensures Get(Mapping(Events(data, tokens, p)), (r.position, r.word)) != []
  {
    var c := SideCounter(data, tokens, p, side);
    var ks := SideKeys(Events(data, tokens, p), side, Join(tokens, " "), NeighbourKeyOf);
    var es := MostCommon(c);
    var i :| 0 <= i < |es| && NeighbourRow(es[i], side) == r;
    MostCommonEntry(ks, i);
    var w := r.word;
    var isW := (k: NeighbourKey) => k.0 == w;
    TallyTotal(ks, isW);
    NeighbourCountsMatchSources(data, tokens, p, side, w, isW);
    TotalPositive(c, es[i], isW);
  }

  /** The neighbour rows list the before side first, then the after side,
      each side by count descending. */
  lemma CollocOrder(before: Counter<NeighbourKey>, after: Counter<NeighbourKey>, mode: string, a: nat, b: nat)
    requires a < b < |Colloc(before, after, mode)|
    ensures var r := Colloc(before, after, mode);
      && (r[a].position == Label(After) ==> r[b].position == Label(After))
      && (r[a].position == r[b].position ==> r[a].count >= r[b].count)
  {
    var bs := if WantsBefore(mode) then Ranked(MostCommon(before), Before) else [];
    var fs := if WantsAfter(mode) then Ranked(MostCommon(after), After) else [];
    SideDescending(before, Before, WantsBefore(mode));
    SideDescending(after, After, WantsAfter(mode));
    ConcatDescending(bs, fs, a, b);
    var rb := if WantsBefore(mode) then NeighbourRows(MostCommon(before), Before) else [];
    var rf := if WantsAfter(mode) then NeighbourRows(MostCommon(after), After) else [];
    var r := Colloc(before, after, mode);
    assert r == rb + rf && |rb| == |bs| && |rf| == |fs|;
    forall i | 0 <= i < |r|
      ensures r[i].position == (bs + fs)[i].0 && r[i].count == (bs + fs)[i].1
    {
      if i < |rb| {
        assert r[i] == rb[i] && (bs + fs)[i] == bs[i];
      } else {
        assert r[i] == rf[i - |rb|] && (bs + fs)[i] == fs[i - |bs|];
      }
    }
  }

  /** The cell values of a result row as the table holds them. */
  function RowValues(r: Row): Values {
    [r.sample, r.word, r.pos, ShowNat(r.count), r.position]
  }

  /** Clicking a neighbour row with recorded sources highlights its word
      and shows those sources. */
  lemma ClickNeighbour(r: Row, direct: map<string, seq<SourceRef>>, mapping: map<(string, string), seq<SourceRef>>)
    requires Get(mapping, (r.position, r.word)) != []
    ensures Click(RowValues(r), [NeighbourTag], direct, mapping) == (Some(r.word), SortSources(Get(mapping, (r.position, r.word))))
  {
    assert DirectTag !in [NeighbourTag] && SubstringTag !in [NeighbourTag] by {
      assert DirectTag[0] != NeighbourTag[0] && SubstringTag[0] != NeighbourTag[0];
    }
  }

  /** Clicking a substring row with recorded sources highlights its word and
      shows those sources. */
  lemma ClickSubstring(r: Row, direct: map<string, seq<SourceRef>>, mapping: map<(string, string), seq<SourceRef>>)
    requires Get(direct, r.word) != []
    ensures Click(RowValues(r), [SubstringTag], direct, mapping) == (Some(r.word), SortSources(Get(direct, r.word)))
  {
    assert DirectTag !in [SubstringTag] by { assert DirectTag[0] != SubstringTag[0]; }
  }

  /** Every neighbour row a search lists has recorded sources, so clicking it
      never shows the placeholder. */
  lemma CollocRowsHaveSources(data: seq<Segment>, phrase: string, tokens: seq<string>, p: SearchParams, r: Row)
    requires r in NeighbourSearch(data, phrase, tokens, p).colloc
    ensures Get(NeighbourSearch(data, phrase, tokens, p).mapping, (r.position, r.word)) != []
  {
    var bs := if WantsBefore(p.mode) then NeighbourRows(MostCommon(SideCounter(data, tokens, p, Before)), Before) else [];
    var fs := if WantsAfter(p.mode) then NeighbourRows(MostCommon(SideCounter(data, tokens, p, After)), After) else [];
    assert r in bs + fs;
    if r in bs {
      NeighbourRowHasSources(data, tokens, p, Before, r);
    } else {
      NeighbourRowHasSources(data, tokens, p, After, r);
    }
  }

  /** Every substring row a search lists has recorded sources. */
  lemma SubstringRowsHaveSources(data: seq<Segment>, phrase: string, np: string, normalize: string -> string, r: Row)
    requires r in SubstringSearch(data, phrase, np, normalize).direct
    ensures r.position == PartialPosition
    ensures Get(SubstringSearch(data, phrase, np, normalize).sources, r.word) != []
  {
    HitRowHasSources(SubHits(data, np, normalize), phrase, r);
  }

  /** A row listed from the tally of substring hits has recorded sources. */
  lemma HitRowHasSources(hits: seq<(Token, SourceRef)>, phrase: string, r: Row)
    requires r in SubstringRows(MostCommon(Tally(HitTokens(hits))), phrase)
    ensures r.position == PartialPosition && Get(HitSources(hits), r.word) != []
  {
    var ks := HitTokens(hits);
    var c := Tally(ks);
    var es := MostCommon(c);
    var i :| 0 <= i < |es| && SubstringRow(es[i], phrase) == r;
    MostCommonEntry(ks, i);
    var w := r.word;
    var isW := (t: Token) => t.0 == w;
    TallyTotal(ks, isW);
    HitCounts(hits, w, isW);
    TotalPositive(c, es[i], isW);
  }


  /** The keyword row appears exactly when the phrase occurs, carries the
      number of occurrences, and is never affected by the mode or the
      filters. */
  lemma KeywordRow(data: seq<Segment>, phrase: string, p: SearchParams, q: SearchParams,
                   normalize: string -> string, tokenize: string -> seq<string>)
    requires tokenize(normalize(phrase)) != []
    ensures var o := Search(data, NeighbourMode, phrase, p, normalize, tokenize);
      (o.direct != [] <==> exists j, i | 0 <= j < |data| && 0 <= i :: MatchAt(data[j], tokenize(normalize(phrase)), i))
      && (o.direct != [] ==> o.direct == [Row(phrase, phrase, "-", |Exact(data, tokenize(normalize(phrase)))|, KeywordPosition)])
      && o.direct == Search(data, NeighbourMode, phrase, q, normalize, tokenize).direct
  {
    var tokens := tokenize(normalize(phrase));
    ExactNonEmpty(data, tokens);
    assert SubstringMode != NeighbourMode by { assert SubstringMode[0] != NeighbourMode[0]; }
  }

  /** Some exact occurrence is recorded exactly when some window matches. */
  lemma ExactNonEmpty(data: seq<Segment>, tokens: seq<string>)
    ensures Exact(data, tokens) != [] <==> exists j, i | 0 <= j < |data| && 0 <= i :: MatchAt(data[j], tokens, i)
  {
    var ex := Exact(data, tokens);
    if ex != [] {
      ExactSpec(data, tokens, ex[0]);
    }
    if exists j, i | 0 <= j < |data| && 0 <= i :: MatchAt(data[j], tokens, i) {
      var j, i :| 0 <= j < |data| && 0 <= i && MatchAt(data[j], tokens, i);
      ExactSpec(data, tokens, Ref(data[j]));
    }
  }

  /** A search that finds nothing leaves the no-result row alone in the
      table; otherwise the table holds one row per result, direct rows
      first, each showing its word and its count. */
  lemma DisplayedRows(direct: seq<Row>, colloc: seq<Row>)
    ensures direct + colloc == [] ==> |Displayed(direct, colloc)| == 1 && Cell(Displayed(direct, colloc)[0], WordColumn) == NoResults
    ensures direct + colloc != [] ==>
      && |Displayed(direct, colloc)| == |direct| + |colloc|
      && (forall i | 0 <= i < |direct| :: Cell(Displayed(direct, colloc)[i], WordColumn) == direct[i].word)
      && (forall i | 0 <= i < |colloc| :: Cell(Displayed(direct, colloc)[|direct| + i], WordColumn) == colloc[i].word)
      && (forall i | 0 <= i < |direct| + |colloc| :: FreqValue(Cell(Displayed(direct, colloc)[i], 3)) == (direct + colloc)[i].count)
  {
    var all, t := direct + colloc, Displayed(direct, colloc);
    if all != [] {
      forall i | 0 <= i < |all|
        ensures Cell(t[i], WordColumn) == all[i].word && FreqValue(Cell(t[i], 3)) == all[i].count
      {
        assert t[i] == RowValues(all[i]);
        ShowNatRoundTrip(all[i].count);
      }
      forall i | 0 <= i < |colloc| ensures Cell(t[|direct| + i], WordColumn) == colloc[i].word {
        assert all[|direct| + i] == colloc[i];
      }
    }
  }
  /** A search type other than the two offered gives no rows and no
      provenance. */
  lemma UnknownSearchTypeNoRows(data: seq<Segment>, searchType: string, phrase: string, p: SearchParams,
                                normalize: string -> string, tokenize: string -> seq<string>)
    requires searchType != SubstringMode && searchType != NeighbourMode
    ensures Search(data, searchType, phrase, p, normalize, tokenize) == Nothing
  {
  }

  /** The shown sources of a result with recorded provenance: every recorded
      source once, ascending by (source, sentence), whatever order and
      repetitions they were recorded in. */
  lemma ShownSpec(refs: seq<SourceRef>, placeholder: string)
    ensures refs != [] ==> StrictlySorted(Shown(refs, placeholder))
    ensures refs != [] ==> forall y :: y in Shown(refs, placeholder) <==> y in refs
    ensures refs == [] ==> Shown(refs, placeholder) == [(placeholder, "")]
  {
    SortSourcesSpec(refs);
  }

  /** The bidi reorder of a text that contains the phrase: there are at
      least two segments, a known model only permutes them, and applying the
      same model twice restores the original order. */
  lemma BidiShape(text: string, p: string, model: string)
    requires p != [] && Contains(text, p) && KnownModel(model)
    ensures var segs := SplitOn(text, p);
      && |segs| >= 2
      && multiset(Reorder(segs, model)) == multiset(segs)
      && Reorder(Reorder(segs, model), model) == segs
  {
    var segs := SplitOn(text, p);
    SplitOnCount(text, p);
    ReorderPermutation(segs, model);
    ReorderInvolution(segs, model);
  }

  /** A known model keeps every segment; an unknown one lays out none, so
      the reordered text is empty. */
  lemma ReorderLength(segs: seq<string>, model: string)
    ensures KnownModel(model) ==> |Reorder(segs, model)| == |segs|
    ensures !KnownModel(model) ==> Reorder(segs, model) == []
  {
    if KnownModel(model) {
      ReorderPermutation(segs, model);
      assert |multiset(Reorder(segs, model))| == |multiset(segs)|;
    }
  }

  lemma ReorderPermutation(segs: seq<string>, model: string)
    requires KnownModel(model)
    ensures multiset(Reorder(segs, model)) == multiset(segs)
  {
    var n := |segs|;
    if model == Model2 {
      ReverseMultiset(segs);
    } else if model == Model3 && n >= 2 {
      ReverseMultiset(segs[..n - 2]);
      SplitAt(segs, n - 2);
    } else if model == Model4 && n >= 2 {
      ReverseMultiset(segs[2..]);
      SplitAt(segs, 2);
    }
  }

  lemma ReorderInvolution(segs: seq<string>, model: string)
    requires KnownModel(model)
    ensures Reorder(Reorder(segs, model), model) == segs
  {
    if model == Model2 {
      ReverseInvolution(segs);
    } else if model == Model3 {
      KeepLastPairInvolution(segs);
    } else if model == Model4 {
      KeepFirstPairInvolution(segs);
    }
  }

  lemma KeepLastPairInvolution(segs: seq<string>)
    ensures KeepLastPair(KeepLastPair(segs)) == segs
  {
    var n := |segs|;
    if n >= 2 {
      var r := KeepLastPair(segs);
      assert r[..n - 2] == Strings.Reverse(segs[..n - 2]) && r[n - 2..] == segs[n - 2..];
      ReverseInvolution(segs[..n - 2]);
      SplitAt(segs, n - 2);
    }
  }

  lemma KeepFirstPairInvolution(segs: seq<string>)
    ensures KeepFirstPair(KeepFirstPair(segs)) == segs
  {
    var n := |segs|;
    if n >= 2 {
      var r := KeepFirstPair(segs);
      assert r[..2] == segs[..2] && r[2..] == Strings.Reverse(segs[2..]);
      ReverseInvolution(segs[2..]);
      SplitAt(segs, 2);
    }
  }

  /** A table sort loses no row, leaves the no-result row at the bottom,
      and sorts every other row by the column's key, keeping the old order
      among rows with equal keys. */
  lemma ArrangedSpec(rows: seq<Values>, c: nat, numeric: bool, reverse: bool)
    ensures multiset(Arranged(rows, c, numeric, reverse)) == multiset(rows)
    ensures |Without(rows, WordColumn, NoResults)| <= |Arranged(rows, c, numeric, reverse)|
    ensures var a, k := Arranged(rows, c, numeric, reverse), |Without(rows, WordColumn, NoResults)|;
      && Sorted(a[..k], RowKey(c, numeric), reverse)
      && (forall key :: WithKey(a[..k], RowKey(c, numeric), key) == WithKey(Without(rows, WordColumn, NoResults), RowKey(c, numeric), key))
      && (forall r | r in a[..k] :: Cell(r, WordColumn) != NoResults)
      && (forall r | r in a[k..] :: Cell(r, WordColumn) == NoResults)
  {
    var kept := Without(rows, WordColumn, NoResults);
    var sorted := SortBy(kept, RowKey(c, numeric), reverse);
    SetAsidePermutation(rows, WordColumn, NoResults);
    SortRowsSpec(kept, c, numeric, reverse);
    assert |sorted| == |kept| by { assert |multiset(sorted)| == |multiset(kept)|; }
    var a := Arranged(rows, c, numeric, reverse);
    assert a[..|kept|] == sorted;
    assert a[|kept|..] == Only(rows, WordColumn, NoResults);
    forall r | r in sorted ensures Cell(r, WordColumn) != NoResults {
      assert r in multiset(sorted);
    }
  }
}
