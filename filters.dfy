/** The neighbour filters of a collocation search: a grammatical-role filter
    and a word condition ("contains" / "starts with"), and the search modes
    that pick which neighbours are looked at. Both the current application
    and its older variant implement `_check_filters` the same way. */
module Filters {
  import opened Strings
  import opened PosTable

  /** Role-filter choice that accepts every tag. */
  const AnyRole := "هر نقشی"
  /** Word-condition choices: none, "contains", "starts with". */
  const NoCondition := "فرقی نمی‌کند"
  const ContainsCondition := "حاوی"
  const StartsWithCondition := "شروع با"
  /** Search modes: both neighbours, the word before, the word after. */
  const BothSides := "هر دو"
  const BeforeOnly := "کلمه قبلی"
  const AfterOnly := "کلمه بعدی"

  /** The filter part of the search parameters. */
  datatype SearchParams = SearchParams(mode: string, conditionType: string, conditionValue: string, posFilter: string)

  /** `has_filters`: some filter is switched on. */
  predicate HasFilters(p: SearchParams) {
    p.posFilter != AnyRole || p.conditionType != NoCondition
  }

  /** The mode asks for the word before the phrase. */
  predicate WantsBefore(mode: string) {
    mode == BothSides || mode == BeforeOnly
  }

  /** The mode asks for the word after the phrase. */
  predicate WantsAfter(mode: string) {
    mode == BothSides || mode == AfterOnly
  }

  /** `_check_filters(word, pos, params)`: a neighbour is rejected when a role
      filter is chosen and the role does not list its tag (an unknown role
      lists none), when it must contain the value and does not, or when it
      must start with the value and does not; it passes otherwise. */
  function CheckFilters(word: string, pos: string, p: SearchParams): (ok: bool)
    ensures !ok <==>
      || (p.posFilter != AnyRole && pos !in RoleTags(p.posFilter))
      || (p.conditionType == ContainsCondition && !Contains(word, p.conditionValue))
      || (p.conditionType == StartsWithCondition && !StartsWith(word, p.conditionValue))
  {
    if p.posFilter != AnyRole && pos !in RoleTags(p.posFilter) then false
    else if p.conditionType == ContainsCondition && !Contains(word, p.conditionValue) then false
    else if p.conditionType == StartsWithCondition && !StartsWith(word, p.conditionValue) then false
    else true
  }

  /** With no filter switched on every neighbour passes. */
  lemma NoFiltersAcceptAll(word: string, pos: string, p: SearchParams)
    requires !HasFilters(p)
    ensures CheckFilters(word, pos, p)
  {
  }

  /** A role name that is not in the table rejects every neighbour. */
  lemma UnknownRoleRejects(word: string, pos: string, p: SearchParams)
    requires p.posFilter != AnyRole && Lookup(PosEntries, p.posFilter).None?
    ensures !CheckFilters(word, pos, p)
  {
  }

  /** The noun filter accepts exactly the two noun tags. */
  lemma NounFilter(word: string, pos: string, p: SearchParams)
    requires p.posFilter == "اسم" && p.conditionType == NoCondition
    ensures CheckFilters(word, pos, p) <==> pos == "NOUN" || pos == "NOUN,EZ"
  {
    assert PosEntries[0].0 == "اسم";
  }

  /** An empty "contains" value is found in every word, as in Python. */
  lemma EmptyValueContained(word: string)
    ensures Contains(word, "")
  {
    assert OccursAt(word, "", 0);
  }
}
