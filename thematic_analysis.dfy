/**
 * `ThematicAnalysis`: clicking a theme header collapses or expands it. The
 * collapsed themes are a set of theme ids that is replaced, never changed.
 */
module ThemeCollapse {

  /** `toggleTheme`: a copy of `collapsed` with `themeId` removed if it was there, added if not. */
  function ToggleTheme(collapsed: set<int>, themeId: int): (r: set<int>)
    ensures themeId in r <==> themeId !in collapsed
    ensures forall other :: other != themeId ==> (other in r <==> other in collapsed)
  {
    if themeId in collapsed then collapsed - {themeId} else collapsed + {themeId}
  }

  /** Toggling a theme twice restores the collapsed set. */
  lemma ToggleTwice(collapsed: set<int>, themeId: int)
    ensures ToggleTheme(ToggleTheme(collapsed, themeId), themeId) == collapsed
  {
  }

  /** Toggles of different themes do not interfere: their order does not matter. */
  lemma TogglesCommute(collapsed: set<int>, a: int, b: int)
    ensures ToggleTheme(ToggleTheme(collapsed, a), b) == ToggleTheme(ToggleTheme(collapsed, b), a)
  {
  }
}
