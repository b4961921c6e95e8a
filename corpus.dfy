/** The tagged corpus and what a search finds in it, stated as values.

    A collocation search slides a window as long as the tokenised query over
    the words of every tagged segment. Each window that matches is an exact
    occurrence; the word just before and the word just after it are
    neighbours, recorded when the search mode asks for that side and the word
    passes the filters. A substring search takes, from every segment whose
    sentence contains the query, the first token that contains it.

    The searches of both applications are specified here as the sequence of
    what they record, in the order their loops record it; the counters and
    provenance maps they build are functions of that sequence. */
module Corpus {
  import opened Wrappers
  import opened Strings
  import opened Counters
  import opened Filters
  import opened Provenance

  /** A tagged token: (word, part-of-speech tag). */
  type Token = (string, string)

  /** One corpus entry: the original sentence, its tagged tokens, and the
      book it came from. */
  datatype Segment = Segment(sentence: string, tagged: seq<Token>, source: string)

  function Ref(g: Segment): SourceRef {
    (g.sentence, g.source)
  }

  /** `[item[0] for item in tagged_sentence]` */
  function Words(tagged: seq<Token>): (w: seq<string>)
    ensures |w| == |tagged|
    ensures forall i | 0 <= i < |tagged| :: w[i] == tagged[i].0
  {
    seq(|tagged|, i requires 0 <= i < |tagged| => tagged[i].0)
  }

  /** How many start positions `range(len(words) - L + 1)` visits. */
  function Windows(n: nat, len: nat): nat {
    if n + 1 >= len then n + 1 - len else 0
  }

  /** `words[i:i + L] == search_tokens` */
  predicate MatchAt(g: Segment, tokens: seq<string>, i: nat) {
    i + |tokens| <= |g.tagged| && Words(g.tagged)[i..i + |tokens|] == tokens
  }

  /** Which neighbour of a match. */
  datatype Side = Before | After

  /** The position label a neighbour is shown and keyed under. */
  function Label(s: Side): string {
    match s
    case Before => "قبل"
    case After => "بعد"
  }

  lemma LabelsDiffer()
    ensures Label(Before) != Label(After)
  {
    assert Label(Before)[0] != Label(After)[0];
  }

  /** A recorded neighbour: its side, the token, and where it was found. */
  datatype Event = Event(side: Side, token: Token, ref: SourceRef)

  /** `not has_filters or self._check_filters(word, pos, params)` */
  predicate Passes(t: Token, p: SearchParams) {
    !HasFilters(p) || CheckFilters(t.0, t.1, p)
  }

  /** What the source promises about a recorded neighbour: the window at `i`
      matches, the mode asks for that side, the neighbour exists and passes
      the filters. */
  predicate Neighbour(g: Segment, tokens: seq<string>, p: SearchParams, i: nat, e: Event) {
    && MatchAt(g, tokens, i)
    && e.ref == Ref(g)
    && Passes(e.token, p)
    && match e.side
       case Before => WantsBefore(p.mode) && 0 < i && e.token == g.tagged[i - 1]
       case After => WantsAfter(p.mode) && i + |tokens| < |g.tagged| && e.token == g.tagged[i + |tokens|]
  }

  /** The word before the window at `i`, when the mode asks for it, there is
      one and it passes the filters. */
  function BeforeAt(g: Segment, p: SearchParams, i: nat): seq<Event> {
    if WantsBefore(p.mode) && 0 < i <= |g.tagged| && Passes(g.tagged[i - 1], p)
    then [Event(Before, g.tagged[i - 1], Ref(g))] else []
  }

  /** The word after the window at `i`, likewise. */
  function AfterAt(g: Segment, tokens: seq<string>, p: SearchParams, i: nat): seq<Event> {
    if WantsAfter(p.mode) && i + |tokens| < |g.tagged| && Passes(g.tagged[i + |tokens|], p)
    then [Event(After, g.tagged[i + |tokens|], Ref(g))] else []
  }

  /** The neighbours recorded for the window at `i`: the one before, then the
      one after. */
  function EventsAt(g: Segment, tokens: seq<string>, p: SearchParams, i: nat): seq<Event> {
    if !MatchAt(g, tokens, i) then [] else BeforeAt(g, p, i) + AfterAt(g, tokens, p, i)
  }

  /** The neighbours recorded for the first `k` windows of a segment. */
  function SegEvents(g: Segment, tokens: seq<string>, p: SearchParams, k: nat): seq<Event> {
    if k == 0 then [] else SegEvents(g, tokens, p, k - 1) + EventsAt(g, tokens, p, k - 1)
  }

  /** The neighbours a whole search records, in order. */
  function Events(data: seq<Segment>, tokens: seq<string>, p: SearchParams): seq<Event> {
    if data == [] then []
    else
      var g := data[|data| - 1];
      Events(data[..|data| - 1], tokens, p) + SegEvents(g, tokens, p, Windows(|g.tagged|, |tokens|))
  }

  /** The provenance of every exact occurrence among the first `k` windows. */
  function SegExact(g: Segment, tokens: seq<string>, k: nat): seq<SourceRef> {
    if k == 0 then [] else SegExact(g, tokens, k - 1) + (if MatchAt(g, tokens, k - 1) then [Ref(g)] else [])
  }

  /** The provenance of every exact occurrence; its length is the exact
      occurrence count. Neither depends on the mode or the filters. */
  function Exact(data: seq<Segment>, tokens: seq<string>): seq<SourceRef> {
    if data == [] then []
    else
      var g := data[|data| - 1];
      Exact(data[..|data| - 1], tokens) + SegExact(g, tokens, Windows(|g.tagged|, |tokens|))
  }

  /** The counter keys the neighbours of one side contribute, in order. */
  function SideKeys<K>(ev: seq<Event>, side: Side, phrase: string, key: (Event, string) -> K): seq<K> {
    if ev == [] then []
    else
      var e := ev[|ev| - 1];
      SideKeys(ev[..|ev| - 1], side, phrase, key) + (if e.side == side then [key(e, phrase)] else [])
  }

  /** The `sentence_mapping` the neighbours fill: `(label, word)` to the
      sources, appended in order. */
  function Mapping(ev: seq<Event>): map<(string, string), seq<SourceRef>> {
    if ev == [] then map[]
    else
      var e := ev[|ev| - 1];
      Add(Mapping(ev[..|ev| - 1]), (Label(e.side), e.token.0), e.ref)
  }

  /** The sample text shown for a neighbour: the word, then the phrase, in
      reading order. */
  function Sample(e: Event, phrase: string): string {
    match e.side
    case Before => e.token.0 + " " + phrase
    case After => phrase + " " + e.token.0
  }

  // ---- What the recorded neighbours are ----

  lemma EventsAtSpec(g: Segment, tokens: seq<string>, p: SearchParams, i: nat, e: Event)
    ensures e in EventsAt(g, tokens, p, i) <==> Neighbour(g, tokens, p, i, e)
  {
  }

  lemma {:induction false} SegEventsSpec(g: Segment, tokens: seq<string>, p: SearchParams, k: nat, e: Event)
    ensures e in SegEvents(g, tokens, p, k) <==> exists i | 0 <= i < k :: Neighbour(g, tokens, p, i, e)
  {
    if k > 0 {
      SegEventsSpec(g, tokens, p, k - 1, e);
      EventsAtSpec(g, tokens, p, k - 1, e);
      var prev := SegEvents(g, tokens, p, k - 1);
      var at := EventsAt(g, tokens, p, k - 1);
      assert SegEvents(g, tokens, p, k) == prev + at;
      if e in prev + at {
        if e in prev {
          var i :| 0 <= i < k - 1 && Neighbour(g, tokens, p, i, e);
        } else {
          assert Neighbour(g, tokens, p, k - 1, e);
        }
      }
      if exists i | 0 <= i < k :: Neighbour(g, tokens, p, i, e) {
        var i :| 0 <= i < k && Neighbour(g, tokens, p, i, e);
        if i < k - 1 {
          assert e in prev;
        } else {
          assert e in at;
        }
      }
    }
  }

  /** A neighbour is recorded exactly when some segment has a matching window
      with that neighbour, on a side the mode asks for, passing the filters. */
  lemma EventsSpec(data: seq<Segment>, tokens: seq<string>, p: SearchParams, e: Event)
    ensures e in Events(data, tokens, p) <==>
      exists j, i | 0 <= j < |data| && 0 <= i :: Neighbour(data[j], tokens, p, i, e)
  {
    if e in Events(data, tokens, p) {
      EventsSound(data, tokens, p, e);
    }
    if exists j, i | 0 <= j < |data| && 0 <= i :: Neighbour(data[j], tokens, p, i, e) {
      var j, i :| 0 <= j < |data| && 0 <= i && Neighbour(data[j], tokens, p, i, e);
      EventsComplete(data, tokens, p, e, j, i);
    }
  }

  lemma {:induction false} EventsSound(data: seq<Segment>, tokens: seq<string>, p: SearchParams, e: Event)
    requires e in Events(data, tokens, p)
    ensures exists j, i | 0 <= j < |data| && 0 <= i :: Neighbour(data[j], tokens, p, i, e)
  {
    var n := |data| - 1;
    var g := data[n];
    var w := Windows(|g.tagged|, |tokens|);
    assert Events(data, tokens, p) == Events(data[..n], tokens, p) + SegEvents(g, tokens, p, w);
    if e in Events(data[..n], tokens, p) {
      EventsSound(data[..n], tokens, p, e);
      var j, i :| 0 <= j < n && 0 <= i && Neighbour(data[..n][j], tokens, p, i, e);
      assert data[..n][j] == data[j];
    } else {
      SegEventsSpec(g, tokens, p, w, e);
      var i :| 0 <= i < w && Neighbour(g, tokens, p, i, e);
      assert Neighbour(data[n], tokens, p, i, e);
    }
  }

  lemma {:induction false} EventsComplete(data: seq<Segment>, tokens: seq<string>, p: SearchParams, e: Event, j: nat, i: nat)
    requires j < |data| && Neighbour(data[j], tokens, p, i, e)
    ensures e in Events(data, tokens, p)
  {
    var n := |data| - 1;
    var g := data[n];
    var w := Windows(|g.tagged|, |tokens|);
    assert Events(data, tokens, p) == Events(data[..n], tokens, p) + SegEvents(g, tokens, p, w);
    if j < n {
      assert data[..n][j] == data[j];
      EventsComplete(data[..n], tokens, p, e, j, i);
    } else {
      assert data[j] == g;
      assert MatchAt(g, tokens, i) && i < w;
      SegEventsSpec(g, tokens, p, w, e);
    }
  }


  /** A mode that does not ask for a side records no neighbour on it. */
  lemma ModeExcludesSide(data: seq<Segment>, tokens: seq<string>, p: SearchParams, e: Event)
    requires e in Events(data, tokens, p)
    ensures e.side == Before ==> WantsBefore(p.mode)
    ensures e.side == After ==> WantsAfter(p.mode)
    ensures Passes(e.token, p)
  {
    EventsSpec(data, tokens, p, e);
  }

  // ---- Counters agree with provenance ----

  lemma SideKeysAppend<K>(ev: seq<Event>, e: Event, side: Side, phrase: string, key: (Event, string) -> K)
    ensures SideKeys(ev + [e], side, phrase, key) == SideKeys(ev, side, phrase, key) + (if e.side == side then [key(e, phrase)] else [])
  {
    assert (ev + [e])[..|ev|] == ev;
  }

  /** For every word, the neighbours of one side counted under that word are
      exactly as many as the sources listed under `(label, word)`. */
  lemma {:induction false} MappingCounts<K>(ev: seq<Event>, side: Side, phrase: string, key: (Event, string) -> K, w: string, isW: K -> bool)
    requires forall e: Event :: isW(key(e, phrase)) <==> e.token.0 == w
    ensures CountWhere(SideKeys(ev, side, phrase, key), isW) == |Get(Mapping(ev), (Label(side), w))|
  {
    if ev != [] {
      var n := |ev| - 1;
      var e := ev[n];
      MappingCounts(ev[..n], side, phrase, key, w, isW);
      LabelsDiffer();
      var ks := SideKeys(ev[..n], side, phrase, key);
      if e.side == side {
        assert SideKeys(ev, side, phrase, key) == ks + [key(e, phrase)];
        assert (ks + [key(e, phrase)])[..|ks|] == ks;
      } else {
        assert SideKeys(ev, side, phrase, key) == ks + [] == ks;
        assert (Label(e.side), e.token.0) != (Label(side), w);
      }
    }
  }

  // ---- Neighbours are bounded by exact occurrences ----

  lemma {:induction false} SideKeysConcat<K>(a: seq<Event>, b: seq<Event>, side: Side, phrase: string, key: (Event, string) -> K)
    ensures SideKeys(a + b, side, phrase, key) == SideKeys(a, side, phrase, key) + SideKeys(b, side, phrase, key)
    decreases |b|
  {
    if b == [] {
      assert a + b == a;
    } else {
      var n := |b| - 1;
      var ka, kb := SideKeys(a, side, phrase, key), SideKeys(b[..n], side, phrase, key);
      var t := if b[n].side == side then [key(b[n], phrase)] else [];
      SideKeysConcat(a, b[..n], side, phrase, key);
      assert a + b == (a + b[..n]) + [b[n]];
      SideKeysAppend(a + b[..n], b[n], side, phrase, key);
      assert SideKeys(a + b, side, phrase, key) == (ka + kb) + t;
      SideKeysAppend(b[..n], b[n], side, phrase, key);
      assert b == b[..n] + [b[n]];
      assert SideKeys(b, side, phrase, key) == kb + t;
      AppendAssoc(ka, kb, t);
    }
  }

  lemma {:induction false} SegSideBounded<K>(g: Segment, tokens: seq<string>, p: SearchParams, k: nat, side: Side, phrase: string, key: (Event, string) -> K)
    ensures |SideKeys(SegEvents(g, tokens, p, k), side, phrase, key)| <= |SegExact(g, tokens, k)|
  {
    if k > 0 {
      SegSideBounded(g, tokens, p, k - 1, side, phrase, key);
      SideKeysConcat(SegEvents(g, tokens, p, k - 1), EventsAt(g, tokens, p, k - 1), side, phrase, key);
      WindowSideBounded(g, tokens, p, k - 1, side, phrase, key);
    }
  }

  /** A window records at most one neighbour on each side, and none when it
      does not match. */
  lemma WindowSideBounded<K>(g: Segment, tokens: seq<string>, p: SearchParams, i: nat, side: Side, phrase: string, key: (Event, string) -> K)
    ensures |SideKeys(EventsAt(g, tokens, p, i), side, phrase, key)| <= if MatchAt(g, tokens, i) then 1 else 0
  {
    if MatchAt(g, tokens, i) {
      var b, a := BeforeAt(g, p, i), AfterAt(g, tokens, p, i);
      SideKeysConcat(b, a, side, phrase, key);
      if b != [] {
        assert b == [] + [b[0]];
        SideKeysAppend([], b[0], side, phrase, key);
      }
      if a != [] {
        assert a == [] + [a[0]];
        SideKeysAppend([], a[0], side, phrase, key);
      }
    }
  }

  /** Each side records at most one neighbour per exact occurrence. */
  lemma {:induction false} SideBoundedByExact<K>(data: seq<Segment>, tokens: seq<string>, p: SearchParams, side: Side, phrase: string, key: (Event, string) -> K)
    ensures |SideKeys(Events(data, tokens, p), side, phrase, key)| <= |Exact(data, tokens)|
  {
    if data != [] {
      var n := |data| - 1;
      var g := data[n];
      var w := Windows(|g.tagged|, |tokens|);
      SideBoundedByExact(data[..n], tokens, p, side, phrase, key);
      SegSideBounded(g, tokens, p, w, side, phrase, key);
      SideKeysConcat(Events(data[..n], tokens, p), SegEvents(g, tokens, p, w), side, phrase, key);
    }
  }

  /** Every exact occurrence is an actual matching window. */
  lemma ExactSpec(data: seq<Segment>, tokens: seq<string>, r: SourceRef)
    ensures r in Exact(data, tokens) <==> exists j, i | 0 <= j < |data| && 0 <= i :: MatchAt(data[j], tokens, i) && Ref(data[j]) == r
  {
    if r in Exact(data, tokens) {
      ExactSound(data, tokens, r);
    }
    if exists j, i | 0 <= j < |data| && 0 <= i :: MatchAt(data[j], tokens, i) && Ref(data[j]) == r {
      var j, i :| 0 <= j < |data| && 0 <= i && MatchAt(data[j], tokens, i) && Ref(data[j]) == r;
      ExactComplete(data, tokens, j, i);
    }
  }

  lemma {:induction false} ExactSound(data: seq<Segment>, tokens: seq<string>, r: SourceRef)
    requires r in Exact(data, tokens)
    ensures exists j, i | 0 <= j < |data| && 0 <= i :: MatchAt(data[j], tokens, i) && Ref(data[j]) == r
  {
    var n := |data| - 1;
    var g := data[n];
    if r in Exact(data[..n], tokens) {
      ExactSound(data[..n], tokens, r);
      var j, i :| 0 <= j < n && 0 <= i && MatchAt(data[..n][j], tokens, i) && Ref(data[..n][j]) == r;
      assert data[..n][j] == data[j];
    } else {
      SegExactSpec(g, tokens, Windows(|g.tagged|, |tokens|), r);
      var i :| 0 <= i < Windows(|g.tagged|, |tokens|) && MatchAt(g, tokens, i) && Ref(g) == r;
      assert MatchAt(data[n], tokens, i) && Ref(data[n]) == r;
    }
  }

  lemma {:induction false} ExactComplete(data: seq<Segment>, tokens: seq<string>, j: nat, i: nat)
    requires j < |data| && MatchAt(data[j], tokens, i)
    ensures Ref(data[j]) in Exact(data, tokens)
  {
    var n := |data| - 1;
    var g := data[n];
    var w := Windows(|g.tagged|, |tokens|);
    assert Exact(data, tokens) == Exact(data[..n], tokens) + SegExact(g, tokens, w);
    if j < n {
      assert data[..n][j] == data[j];
      ExactComplete(data[..n], tokens, j, i);
    } else {
      SegExactHas(g, tokens, w, i);
    }
  }

  /** A window that matches contributes its segment's provenance. */
  lemma {:induction false} SegExactHas(g: Segment, tokens: seq<string>, k: nat, i: nat)
    requires i < k && MatchAt(g, tokens, i)
    ensures Ref(g) in SegExact(g, tokens, k)
  {
    if i < k - 1 {
      SegExactHas(g, tokens, k - 1, i);
    }
  }

  lemma {:induction false} SegExactSpec(g: Segment, tokens: seq<string>, k: nat, r: SourceRef)
    requires k <= Windows(|g.tagged|, |tokens|)
    ensures r in SegExact(g, tokens, k) <==> exists i | 0 <= i < k :: MatchAt(g, tokens, i) && Ref(g) == r
    ensures k == Windows(|g.tagged|, |tokens|) ==> forall i: nat | MatchAt(g, tokens, i) :: i < k
  {
    if k > 0 {
      SegExactSpec(g, tokens, k - 1, r);
    }
  }

  /** `exact_count` counts one per matching window: the first `k` windows of
      a segment give as many references as there are matching start
      positions among them, each the segment's own. */
  lemma {:induction false} SegExactCount(g: Segment, tokens: seq<string>, k: nat)
    ensures |SegExact(g, tokens, k)| == |Starts(g, tokens, k)|
    ensures forall r | r in SegExact(g, tokens, k) :: r == Ref(g)
  {
    if k > 0 {
      SegExactCount(g, tokens, k - 1);
      StartsStep(g, tokens, k);
    }
  }

  /** One more window adds its start exactly when it matches. */
  lemma StartsStep(g: Segment, tokens: seq<string>, k: nat)
    requires k > 0
    ensures Starts(g, tokens, k) == Starts(g, tokens, k - 1) + (if MatchAt(g, tokens, k - 1) then {k - 1} else {})
    ensures k - 1 !in Starts(g, tokens, k - 1)
  {
    forall i | i in Starts(g, tokens, k) && i != k - 1
      ensures i in Starts(g, tokens, k - 1)
    {
    }
  }

  /** The matching start positions among the first `k` windows. */
  function Starts(g: Segment, tokens: seq<string>, k: nat): set<nat> {
    set i: nat | i < k && MatchAt(g, tokens, i)
  }

  /** The (segment, start) pairs at which the phrase's tokens occur. */
  function Occurrences(data: seq<Segment>, tokens: seq<string>): set<(nat, nat)> {
    set j, i | 0 <= j < |data| && 0 <= i <= |data[j].tagged| && MatchAt(data[j], tokens, i) :: (j, i)
  }

  /** The exact occurrence count is the number of (segment, start) pairs at
      which the phrase's tokens occur. */
  lemma {:induction false} ExactCount(data: seq<Segment>, tokens: seq<string>)
    ensures |Exact(data, tokens)| == |Occurrences(data, tokens)|
  {
    if data == [] {
      assert Occurrences(data, tokens) == {};
    } else {
      var n := |data| - 1;
      var g := data[n];
      var w := Windows(|g.tagged|, |tokens|);
      ExactCount(data[..n], tokens);
      SegExactCount(g, tokens, w);
      assert Exact(data, tokens) == Exact(data[..n], tokens) + SegExact(g, tokens, w);
      assert data == data[..n] + [g];
      OccurrencesSnoc(data[..n], g, tokens);
      PairCount(n, Starts(g, tokens, w));
    }
  }

  /** The occurrences in a corpus are those before its last segment plus
      the last segment's matching starts. */
  lemma OccurrencesSnoc(prior: seq<Segment>, g: Segment, tokens: seq<string>)
    ensures var starts := Starts(g, tokens, Windows(|g.tagged|, |tokens|));
      && Occurrences(prior + [g], tokens) == Occurrences(prior, tokens) + Tagged(|prior|, starts)
      && Occurrences(prior, tokens) !! Tagged(|prior|, starts)
  {
    var starts := Starts(g, tokens, Windows(|g.tagged|, |tokens|));
    var data := prior + [g];
    var n := |prior|;
    SegExactSpec(g, tokens, Windows(|g.tagged|, |tokens|), Ref(g));
    var last := Tagged(n, starts);
    forall q | q in Occurrences(data, tokens) ensures q in Occurrences(prior, tokens) + last {
      if q.0 < n {
        assert data[q.0] == prior[q.0];
      } else {
        assert q.1 in starts;
      }
    }
    forall q | q in Occurrences(prior, tokens) ensures q in Occurrences(data, tokens) {
      assert data[q.0] == prior[q.0];
    }
    forall q | q in last ensures q in Occurrences(data, tokens) {
      assert data[n] == g;
    }
  }

  /** A segment's matching starts, each paired with the segment's index. */
  function Tagged(n: nat, s: set<nat>): set<(nat, nat)> {
    set i | i in s :: (n, i)
  }

  /** Pairing every start with the same index keeps the number of starts. */
  lemma {:induction false} PairCount(n: nat, s: set<nat>)
    ensures |Tagged(n, s)| == |s|
  {
    if s != {} {
      var x :| x in s;
      var rest := s - {x};
      PairCount(n, rest);
      assert (n, x) !in Tagged(n, rest);
      forall q | q in Tagged(n, s) ensures q in Tagged(n, rest) + {(n, x)} {
        if q.1 != x {
          assert q.1 in rest;
        }
      }
      assert Tagged(n, s) == Tagged(n, rest) + {(n, x)};
    }
  }

  // ---- Substring search ----

  /** The index of the first token whose normalised word contains `np`. */
  function FirstHit(tagged: seq<Token>, np: string, normalize: string -> string): (r: Option<nat>)
    ensures r.Some? ==> r.value < |tagged| && Contains(normalize(tagged[r.value].0), np)
    ensures r.Some? ==> forall j | 0 <= j < r.value :: !Contains(normalize(tagged[j].0), np)
    ensures r.None? ==> forall j | 0 <= j < |tagged| :: !Contains(normalize(tagged[j].0), np)
  {
    if tagged == [] then None
    else if Contains(normalize(tagged[0].0), np) then Some(0)
    else
      match FirstHit(tagged[1..], np, normalize)
      case Some(j) => Some(j + 1)
      case None => None
  }

  /** The token a segment contributes to a substring search, with its
      provenance, if any. */
  function SegHit(g: Segment, np: string, normalize: string -> string): seq<(Token, SourceRef)> {
    if !Contains(normalize(g.sentence), np) then []
    else
      match FirstHit(g.tagged, np, normalize)
      case Some(i) => [(g.tagged[i], Ref(g))]
      case None => []
  }

  /** The tokens a substring search counts, in order, with their provenance. */
  function SubHits(data: seq<Segment>, np: string, normalize: string -> string): seq<(Token, SourceRef)> {
    if data == [] then [] else SubHits(data[..|data| - 1], np, normalize) + SegHit(data[|data| - 1], np, normalize)
  }

  /** The counted tokens alone. */
  function HitTokens(hits: seq<(Token, SourceRef)>): (r: seq<Token>)
    ensures |r| == |hits|
  {
    if hits == [] then [] else HitTokens(hits[..|hits| - 1]) + [hits[|hits| - 1].0]
  }

  /** `direct_phrase_sources` after a substring search: keyed by word only. */
  function HitSources(hits: seq<(Token, SourceRef)>): map<string, seq<SourceRef>> {
    if hits == [] then map[]
    else
      var h := hits[|hits| - 1];
      Add(HitSources(hits[..|hits| - 1]), h.0.0, h.1)
  }

  /** A segment contributes at most once, only when its normalised sentence
      contains the phrase, and then with a token whose normalised word
      contains it, and no earlier token of the segment does. */
  lemma {:induction false} SubHitsSpec(data: seq<Segment>, np: string, normalize: string -> string)
    ensures |SubHits(data, np, normalize)| <= |data|
    ensures forall h | h in SubHits(data, np, normalize) ::
      Contains(normalize(h.1.0), np) && Contains(normalize(h.0.0), np) &&
      exists j | 0 <= j < |data| :: Ref(data[j]) == h.1 && h.0 in data[j].tagged
  {
    if data != [] {
      var n := |data| - 1;
      SubHitsSpec(data[..n], np, normalize);
      forall h | h in SubHits(data, np, normalize)
        ensures exists j | 0 <= j < |data| :: Ref(data[j]) == h.1 && h.0 in data[j].tagged
      {
        if h in SubHits(data[..n], np, normalize) {
          var j :| 0 <= j < n && Ref(data[..n][j]) == h.1 && h.0 in data[..n][j].tagged;
          assert data[..n][j] == data[j];
        } else {
          assert Ref(data[n]) == h.1 && h.0 in data[n].tagged;
        }
      }
    }
  }

  /** The count of a word, summed over its tags, is the number of sources
      listed for it. */
  lemma {:induction false} HitCounts(hits: seq<(Token, SourceRef)>, w: string, isW: Token -> bool)
    requires forall t: Token :: isW(t) <==> t.0 == w
    ensures CountWhere(HitTokens(hits), isW) == |Get(HitSources(hits), w)|
  {
    if hits != [] {
      var n := |hits| - 1;
      HitCounts(hits[..n], w, isW);
      assert (HitTokens(hits[..n]) + [hits[n].0])[..n] == HitTokens(hits[..n]);
    }
  }
}
