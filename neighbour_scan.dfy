/** The fold both applications' neighbour searches perform: every recorded
    neighbour bumps its side's counter under a key and appends its source to
    the `sentence_mapping` entry of its position label and word. The two
    applications differ only in the counter key (the current one keeps the
    tag, the older one does not), so the key is a parameter here. */
module NeighbourScan {
  import opened Counters
  import opened Provenance
  import opened Corpus

  /** What a neighbour scan builds: the two counters and the mapping. */
  datatype ScanState<K> = ScanState(before: Counter<K>, after: Counter<K>,
                                    mapping: map<(string, string), seq<SourceRef>>)

  /** Two empty `Counter()`s and an empty `defaultdict(list)`. */
  function Start<K>(): ScanState<K> {
    ScanState([], [], map[])
  }

  /** Recording one neighbour: its side's counter and the mapping. */
  function Apply<K(==)>(s: ScanState<K>, e: Event, ps: string, key: (Event, string) -> K): (r: ScanState<K>)
    requires DistinctKeys(s.before) && DistinctKeys(s.after)
    ensures DistinctKeys(r.before) && DistinctKeys(r.after)
  {
    ScanState(
      if e.side == Before then Increment(s.before, key(e, ps)) else s.before,
      if e.side == After then Increment(s.after, key(e, ps)) else s.after,
      Add(s.mapping, (Label(e.side), e.token.0), e.ref))
  }

  /** Recording the neighbours `ev` in order. */
  function ApplyAll<K(==)>(s: ScanState<K>, ev: seq<Event>, ps: string, key: (Event, string) -> K): (r: ScanState<K>)
    requires DistinctKeys(s.before) && DistinctKeys(s.after)
    ensures DistinctKeys(r.before) && DistinctKeys(r.after)
  {
    if ev == [] then s else Apply(ApplyAll(s, ev[..|ev| - 1], ps, key), ev[|ev| - 1], ps, key)
  }

  /** Recording in two stretches is recording once. */
  lemma {:induction false} ApplyAllAppend<K>(s: ScanState<K>, a: seq<Event>, b: seq<Event>, ps: string, key: (Event, string) -> K)
    requires DistinctKeys(s.before) && DistinctKeys(s.after)
    ensures ApplyAll(s, a + b, ps, key) == ApplyAll(ApplyAll(s, a, ps, key), b, ps, key)
    decreases |b|
  {
    if b == [] {
      assert a + b == a;
    } else {
      var n := |b| - 1;
      var mid := ApplyAll(s, a, ps, key);
      ApplyAllAppend(s, a, b[..n], ps, key);
      assert (a + b)[..|a + b| - 1] == a + b[..n];
      assert (a + b)[|a + b| - 1] == b[n];
      ApplyAllLast(s, a + b, ps, key);
      ApplyAllLast(mid, b, ps, key);
      assert ApplyAll(s, a + b, ps, key) == Apply(ApplyAll(mid, b[..n], ps, key), b[n], ps, key);
    }
  }

  /** The counter of one side. */
  function CounterOf<K>(s: ScanState<K>, side: Side): Counter<K> {
    if side == Before then s.before else s.after
  }

  /** From an empty start, the scan holds the tally of each side's keys. */
  lemma {:induction false} ApplyAllCounts<K>(ev: seq<Event>, side: Side, ps: string, key: (Event, string) -> K)
    ensures CounterOf(ApplyAll(Start(), ev, ps, key), side) == Tally(SideKeys(ev, side, ps, key))
  {
    if ev != [] {
      var init, e := ev[..|ev| - 1], ev[|ev| - 1];
      ApplyAllCounts(init, side, ps, key);
      ApplyAllLast(Start(), ev, ps, key);
      ApplyCounter(ApplyAll(Start(), init, ps, key), e, ps, key, side);
      SideKeysLast(ev, side, ps, key);
    }
  }

  /** From an empty start, the scan holds the mapping of the neighbours,
      whatever the key. */
  lemma {:induction false} ApplyAllMapping<K>(ev: seq<Event>, ps: string, key: (Event, string) -> K)
    ensures ApplyAll(Start(), ev, ps, key).mapping == Mapping(ev)
  {
    if ev != [] {
      ApplyAllMapping(ev[..|ev| - 1], ps, key);
      ApplyAllLast(Start(), ev, ps, key);
    }
  }

  lemma ApplyAllLast<K>(s: ScanState<K>, ev: seq<Event>, ps: string, key: (Event, string) -> K)
    requires ev != [] && DistinctKeys(s.before) && DistinctKeys(s.after)
    ensures ApplyAll(s, ev, ps, key) == Apply(ApplyAll(s, ev[..|ev| - 1], ps, key), ev[|ev| - 1], ps, key)
  {
  }

  lemma ApplyCounter<K>(s: ScanState<K>, e: Event, ps: string, key: (Event, string) -> K, side: Side)
    requires DistinctKeys(s.before) && DistinctKeys(s.after)
    ensures CounterOf(Apply(s, e, ps, key), side)
         == if e.side == side then Increment(CounterOf(s, side), key(e, ps)) else CounterOf(s, side)
  {
  }

  /** The last neighbour changes the counter of its own side only. */
  lemma SideKeysLast<K>(ev: seq<Event>, side: Side, ps: string, key: (Event, string) -> K)
    requires ev != []
    ensures var init, e := ev[..|ev| - 1], ev[|ev| - 1];
      Tally(SideKeys(ev, side, ps, key))
        == if e.side == side then Increment(Tally(SideKeys(init, side, ps, key)), key(e, ps))
           else Tally(SideKeys(init, side, ps, key))
  {
    var init, e := ev[..|ev| - 1], ev[|ev| - 1];
    var ks := SideKeys(init, side, ps, key);
    if e.side == side {
      TallySnoc(ks, key(e, ps));
    } else {
      assert ks + [] == ks;
    }
  }

  /** Recording a neighbour before the phrase. */
  lemma ApplyBefore<K>(s: ScanState<K>, e: Event, ps: string, key: (Event, string) -> K)
    requires DistinctKeys(s.before) && DistinctKeys(s.after) && e.side == Before
    ensures ApplyAll(s, [e], ps, key)
         == ScanState(Increment(s.before, key(e, ps)), s.after, Add(s.mapping, (Label(Before), e.token.0), e.ref))
  {
    ApplyAllLast(s, [e], ps, key);
    assert [e][..0] == [];
  }

  /** Recording a neighbour after the phrase. */
  lemma ApplyAfter<K>(s: ScanState<K>, e: Event, ps: string, key: (Event, string) -> K)
    requires DistinctKeys(s.before) && DistinctKeys(s.after) && e.side == After
    ensures ApplyAll(s, [e], ps, key)
         == ScanState(s.before, Increment(s.after, key(e, ps)), Add(s.mapping, (Label(After), e.token.0), e.ref))
  {
    ApplyAllLast(s, [e], ps, key);
    assert [e][..0] == [];
  }

  /** The (position, count) cells of the rows listed from `entries` on one
      side, as both applications build them from `most_common`. */
  function Ranked<K>(entries: seq<(K, nat)>, side: Side): seq<(string, nat)> {
    seq(|entries|, i requires 0 <= i < |entries| => (Label(side), entries[i].1))
  }

  /** Cells that all carry the position `tag` and come by count descending. */
  predicate Descending(rs: seq<(string, nat)>, tag: string) {
    && (forall i | 0 <= i < |rs| :: rs[i].0 == tag)
    && (forall i, j | 0 <= i < j < |rs| :: rs[i].1 >= rs[j].1)
  }

  /** The rows of one side, when the mode asks for them, carry its label and
      come by count descending. */
  lemma SideDescending<K>(c: Counter<K>, side: Side, wanted: bool)
    ensures Descending(if wanted then Ranked(MostCommon(c), side) else [], Label(side))
  {
    if wanted {
      MostCommonOrder(c);
    }
  }

  /** Before-cells followed by after-cells, each descending, keep the sides
      apart and each side in order. */
  lemma ConcatDescending(bs: seq<(string, nat)>, fs: seq<(string, nat)>, a: nat, b: nat)
    requires Descending(bs, Label(Before)) && Descending(fs, Label(After))
    requires a < b < |bs + fs|
    ensures var r := bs + fs;
      && (r[a].0 == Label(After) ==> r[b].0 == Label(After))
      && (r[a].0 == r[b].0 ==> r[a].1 >= r[b].1)
  {
    LabelsDiffer();
    var r := bs + fs;
    if b < |bs| {
      assert r[a] == bs[a] && r[b] == bs[b];
    } else if a < |bs| {
      assert r[a] == bs[a] && r[b] == fs[b - |bs|];
    } else {
      assert r[a] == fs[a - |bs|] && r[b] == fs[b - |bs|];
    }
  }
}
