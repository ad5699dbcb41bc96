/**
 * The search box of `App`: the response as it is when nothing was typed,
 * else the same response with only the themes that mention the term.
 */
module ThemeSearch {
  import opened Wrappers
  import opened Dashboard

  /** Some code of the subtheme has a name containing the term. */
  predicate CodeMatches(s: SubthemeView, term: string) {
    exists c :: c in s.codes && Matches(c.name, term)
  }

  /** The theme's name, a subtheme's name or a code's name contains the term, ignoring case. */
  predicate ThemeMatches(t: ThemeView, term: string) {
    Matches(t.name, term) ||
    exists s :: s in t.subthemes && (Matches(s.name, term) || CodeMatches(s, term))
  }

  /**
   * `filteredData`. A response without `themes` makes the JavaScript throw as
   * soon as a term is typed, so a term requires the themes to be there.
   */
  function FilteredData(data: Option<Analysis>, term: string): (r: Option<Analysis>)
    requires data.Some? && term != "" ==> data.value.themes.Some?
    ensures data.None? || term == "" ==> r == data
    ensures data.Some? && term != "" ==>
      r.Some? && r.value.summary == data.value.summary && r.value.themes.Some? &&
      Subsequence(r.value.themes.value, data.value.themes.value) &&
      forall t :: t in r.value.themes.value <==> t in data.value.themes.value && ThemeMatches(t, term)
  {
    if data.None? || term == "" then data
    else Some(data.value.(themes := Some(Filter(data.value.themes.value, t => ThemeMatches(t, term)))))
  }
}
