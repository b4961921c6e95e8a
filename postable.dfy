/** The table of grammatical roles: each Persian role name offered in the
    role filter stands for a set of the tagger's tags (`pos_map`), and the
    reverse table names the role of a tag (`reverse_pos_map`). */
module PosTable {
  import opened Wrappers

  /** `pos_map`, in the order its entries are written. */
  const PosEntries: seq<(string, set<string>)> := [
    ("اسم", {"NOUN", "NOUN,EZ"}),
    ("فعل", {"VERB"}),
    ("صفت", {"ADJ", "ADJ,EZ"}),
    ("قید", {"ADV"}),
    ("ضمیر", {"PRON"}),
    ("عدد", {"NUM", "NUM,EZ"}),
    ("حرف اضافه", {"ADP", "ADP,EZ"}),
    ("حرف ربط", {"CCONJ", "SCONJ"}),
    ("نقطه‌گذاری", {"PUNCT"}),
    ("تعیین‌کننده", {"DET"}),
    ("حرف ندا", {"INTJ"})
  ]

  /** `pos_map.get(name)`: the tags of the first entry with that name. */
  function Lookup(entries: seq<(string, set<string>)>, name: string): (r: Option<set<string>>)
    ensures r.Some? <==> exists i | 0 <= i < |entries| :: entries[i].0 == name
    ensures r.Some? ==> exists i | 0 <= i < |entries| :: entries[i] == (name, r.value)
  {
    if entries == [] then None
    else if entries[0].0 == name then Some(entries[0].1)
    else
      var r := Lookup(entries[1..], name);
      assert forall i | 0 <= i < |entries[1..]| :: entries[1..][i] == entries[i + 1];
      r
  }

  /** `pos_map.get(name, set())`: the tags a role filter accepts; a name that
      is not a role accepts no tag at all. */
  function RoleTags(name: string): set<string> {
    match Lookup(PosEntries, name)
    case Some(tags) => tags
    case None => {}
  }

  /** `{tag: name for name, tags in table.items() for tag in tags}`: later
      entries overwrite earlier ones for a tag they share. */
  function Reverse(entries: seq<(string, set<string>)>): map<string, string> {
    if entries == [] then map[]
    else
      var last := entries[|entries| - 1];
      Reverse(entries[..|entries| - 1]) + map t | t in last.1 :: last.0
  }

  predicate DistinctNames(entries: seq<(string, set<string>)>) {
    forall i, j | 0 <= i < j < |entries| :: entries[i].0 != entries[j].0
  }

  predicate DisjointTags(entries: seq<(string, set<string>)>) {
    forall i, j | 0 <= i < j < |entries| :: entries[i].1 !! entries[j].1
  }

  /** When no tag belongs to two roles, the reverse table maps a tag to a
      role exactly when the role's entry lists that tag. */
  lemma {:induction false} ReverseInverts(entries: seq<(string, set<string>)>, name: string, tag: string)
    requires DistinctNames(entries) && DisjointTags(entries)
    ensures (exists i | 0 <= i < |entries| :: entries[i].0 == name && tag in entries[i].1)
        <==> (tag in Reverse(entries) && Reverse(entries)[tag] == name)
  {
    if entries != [] {
      var n := |entries| - 1;
      var init, last := entries[..n], entries[n];
      assert forall i | 0 <= i < n :: init[i] == entries[i];
      ReverseInverts(init, name, tag);
      if tag in last.1 {
        forall i | 0 <= i < n ensures tag !in entries[i].1 {
          assert entries[i].1 !! entries[n].1;
        }
      }
    }
  }

  lemma PosNamesDistinct()
    ensures DistinctNames(PosEntries)
  {
  }

  /** A tag belongs to at most one role. */
  lemma PosTagsDisjoint()
    ensures DisjointTags(PosEntries)
  {
    EarlyRolesDisjoint();
    LateRolesDisjoint();
  }

  /** The tags of the first four roles are listed by no later role. */
  lemma EarlyRolesDisjoint()
    ensures forall i, j | 0 <= i < 4 && i < j < |PosEntries| :: PosEntries[i].1 !! PosEntries[j].1
  {
  }

  /** The tags of the remaining roles are listed by no later role. */
  lemma LateRolesDisjoint()
    ensures forall i, j | 4 <= i < j < |PosEntries| :: PosEntries[i].1 !! PosEntries[j].1
  {
  }

  /** `reverse_pos_map.get(tag, tag)`: the role name shown for a tag, or the
      tag itself when no role lists it. */
  function FriendlyPos(tag: string): string {
    var rev := Reverse(PosEntries);
    if tag in rev then rev[tag] else tag
  }

  /** `reverse_pos_map` inverts `pos_map` tag by tag: a role's name is shown
      for exactly the tags that role's filter accepts, apart from the
      fallback that shows an unlisted tag as itself. */
  lemma FriendlyPosInverts(name: string, tag: string)
    requires Lookup(PosEntries, name).Some?
    ensures tag in RoleTags(name) ==> FriendlyPos(tag) == name
    ensures FriendlyPos(tag) == name ==> tag in RoleTags(name) || tag == name
  {
    PosNamesDistinct();
    PosTagsDisjoint();
    ReverseInverts(PosEntries, name, tag);
    var i :| 0 <= i < |PosEntries| && PosEntries[i] == (name, RoleTags(name));
  }
}
