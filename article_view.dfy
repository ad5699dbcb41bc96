/**
 * `ArticleView`: the analysis regrouped by paper. Walking every theme,
 * subtheme and reference number, a map keyed by reference number collects
 * the codes, theme names, subtheme names and quotes that cite each paper;
 * the entries then come out in the order their keys were first set.
 */
module ArticleIndex {
  import opened Wrappers
  import opened Text
  import opened Dashboard

  /** What the map holds for one reference number while it is being built. */
  datatype Entry = Entry(codes: seq<string>, themes: seq<string>, subthemes: seq<string>, quotes: seq<string>)

  /** The JavaScript `Map`: `order` lists its keys in the order they were first set. */
  datatype Index = Index(order: seq<int>, entries: map<int, Entry>)

  /** One row of the view. */
  datatype Article = Article(articleReference: int, codes: seq<string>, themes: seq<string>,
                             subthemes: seq<string>, quotes: seq<string>)

  const NoArticles := Index([], map[])
  const NewEntry := Entry([], [], [], [])

  /** The keys are the listed ones, listed once; theme and subtheme names are `Set`s. */
  ghost predicate Valid(ix: Index) {
    Distinct(ix.order) &&
    (forall r :: r in ix.entries <==> r in ix.order) &&
    forall r :: r in ix.entries ==> Distinct(ix.entries[r].themes) && Distinct(ix.entries[r].subthemes)
  }

  function EntryOf(ix: Index, r: int): Entry {
    if r in ix.entries then ix.entries[r] else NewEntry
  }

  /** The names of `codes`, in order. */
  function CodeNames(codes: seq<CodeView>): (r: seq<string>)
    ensures forall x :: x in r <==> exists c :: c in codes && c.name == x
  {
    if codes == [] then []
    else
      var prefix := codes[..|codes| - 1];
      assert forall c :: c in codes <==> c in prefix || c == codes[|codes| - 1];
      CodeNames(prefix) + [codes[|codes| - 1].name]
  }

  /** The quotes of `codes`, one code after the other. */
  function QuotesOf(codes: seq<CodeView>): (r: seq<string>)
    ensures forall q :: q in r <==> exists c :: c in codes && q in c.quotes
  {
    if codes == [] then []
    else
      var prefix := codes[..|codes| - 1];
      assert forall c :: c in codes <==> c in prefix || c == codes[|codes| - 1];
      QuotesOf(prefix) + codes[|codes| - 1].quotes
  }

  /** Subtheme `s` of theme `t` cites the entry: both names are added, its codes and their quotes pushed. */
  function Cite(e: Entry, t: ThemeView, s: SubthemeView): Entry {
    Entry(e.codes + CodeNames(s.codes), AppendNew(e.themes, t.name), AppendNew(e.subthemes, s.name),
          e.quotes + QuotesOf(s.codes))
  }

  /** Reference `r` of subtheme `s`: its entry is created when missing, then cited. */
  function AddRef(ix: Index, t: ThemeView, s: SubthemeView, r: int): Index {
    Index(AppendNew(ix.order, r), ix.entries[r := Cite(EntryOf(ix, r), t, s)])
  }

  function AddRefs(ix: Index, t: ThemeView, s: SubthemeView, refs: seq<int>): Index {
    if refs == [] then ix else AddRef(AddRefs(ix, t, s, refs[..|refs| - 1]), t, s, refs[|refs| - 1])
  }

  function AddSubthemes(ix: Index, t: ThemeView, subthemes: seq<SubthemeView>): Index {
    if subthemes == [] then ix
    else
      var s := subthemes[|subthemes| - 1];
      AddRefs(AddSubthemes(ix, t, subthemes[..|subthemes| - 1]), t, s, s.references)
  }

  function AddThemes(ix: Index, themes: seq<ThemeView>): Index {
    if themes == [] then ix
    else
      var t := themes[|themes| - 1];
      AddSubthemes(AddThemes(ix, themes[..|themes| - 1]), t, t.subthemes)
  }

  /** `q && q.trim()`: a quote that is not empty or white space only. */
  predicate NonBlank(q: string) {
    q != "" && Trim(q) != ""
  }

  /** The clean-up of one entry: codes and quotes without repeats, blank quotes dropped. */
  function Finish(r: int, e: Entry): Article {
    Article(r, Dedup(e.codes), e.themes, e.subthemes, Dedup(Filter(e.quotes, NonBlank)))
  }

  /** `Array.from(articlesMap.values()).map(...)`. */
  function Entries(ix: Index): (r: seq<Article>)
    ensures |r| == |ix.order| && forall i :: 0 <= i < |r| ==> r[i] == Finish(ix.order[i], EntryOf(ix, ix.order[i]))
  {
    seq(|ix.order|, i requires 0 <= i < |ix.order| => Finish(ix.order[i], EntryOf(ix, ix.order[i])))
  }

  /** `articleData`: nothing without data or themes, else one entry per cited paper. */
  function ArticleData(data: Option<Analysis>): (r: seq<Article>)
    ensures data.None? || data.value.themes.None? ==> r == []
  {
    if data.None? || data.value.themes.None? then [] else Entries(AddThemes(NoArticles, data.value.themes.value))
  }

  lemma AddRefValid(ix: Index, t: ThemeView, s: SubthemeView, r: int)
    requires Valid(ix)
    ensures Valid(AddRef(ix, t, s, r))
  {
  }

  /** The body of `subtheme.codes.forEach`: push the code's name, then its quotes if it has any. */
  method CiteCodes(e: Entry, codes: seq<CodeView>) returns (e': Entry)
    ensures e' == e.(codes := e.codes + CodeNames(codes), quotes := e.quotes + QuotesOf(codes))
  {
    e' := e;
    for k := 0 to |codes|
      invariant e' == e.(codes := e.codes + CodeNames(codes[..k]), quotes := e.quotes + QuotesOf(codes[..k]))
    {
      var c := codes[k];
      assert codes[..k + 1][..k] == codes[..k];
      e' := e'.(codes := e'.codes + [c.name]);
      if |c.quotes| > 0 {
        e' := e'.(quotes := e'.quotes + c.quotes);
      }
    }
    assert codes[..|codes|] == codes;
  }

  /** One reference number of a subtheme: create its entry when missing, then cite it. */
  method CiteReference(ix: Index, t: ThemeView, s: SubthemeView, r: int) returns (ix': Index)
    requires Valid(ix)
    ensures ix' == AddRef(ix, t, s, r) && Valid(ix')
  {
    AddRefValid(ix, t, s, r);
    ix' := ix;
    var e := NewEntry;
    if r in ix'.entries {
      e := ix'.entries[r];
    } else {
      ix' := ix'.(order := ix'.order + [r]);
    }
    e := e.(themes := AppendNew(e.themes, t.name), subthemes := AppendNew(e.subthemes, s.name));
    if |s.codes| > 0 {
      e := CiteCodes(e, s.codes);
    } else {
      assert CodeNames(s.codes) == [] && QuotesOf(s.codes) == [];
      assert e.codes + [] == e.codes && e.quotes + [] == e.quotes;
    }
    assert ix'.order == AppendNew(ix.order, r);
    ix' := ix'.(entries := ix'.entries[r := e]);
  }

  /** `subtheme.references.forEach`. */
  method CiteReferences(ix: Index, t: ThemeView, s: SubthemeView) returns (ix': Index)
    requires Valid(ix)
    ensures ix' == AddRefs(ix, t, s, s.references) && Valid(ix')
  {
    ix' := ix;
    for k := 0 to |s.references|
      invariant ix' == AddRefs(ix, t, s, s.references[..k]) && Valid(ix')
    {
      assert s.references[..k + 1][..k] == s.references[..k];
      ix' := CiteReference(ix', t, s, s.references[k]);
    }
    assert s.references[..|s.references|] == s.references;
  }

  /** `theme.subthemes.forEach`. */
  method CiteSubthemes(ix: Index, t: ThemeView) returns (ix': Index)
    requires Valid(ix)
    ensures ix' == AddSubthemes(ix, t, t.subthemes) && Valid(ix')
  {
    ix' := ix;
    for j := 0 to |t.subthemes|
      invariant ix' == AddSubthemes(ix, t, t.subthemes[..j]) && Valid(ix')
    {
      assert t.subthemes[..j + 1][..j] == t.subthemes[..j];
      ix' := CiteReferences(ix', t, t.subthemes[j]);
    }
    assert t.subthemes[..|t.subthemes|] == t.subthemes;
  }

  /** `articleData`: `data.themes.forEach`, then the clean-up of every entry. */
  method BuildArticleData(data: Option<Analysis>) returns (articles: seq<Article>)
    ensures articles == ArticleData(data)
  {
    if data.None? || data.value.themes.None? {
      return [];
    }
    var themes := data.value.themes.value;
    var ix := NoArticles;
    for i := 0 to |themes|
      invariant ix == AddThemes(NoArticles, themes[..i]) && Valid(ix)
    {
      assert themes[..i + 1][..i] == themes[..i];
      ix := CiteSubthemes(ix, themes[i]);
    }
    assert themes[..|themes|] == themes;
    articles := Entries(ix);
  }

  /** Some subtheme lists reference number `n`. */
  predicate Cited(subthemes: seq<SubthemeView>, n: int) {
    exists s :: s in subthemes && n in s.references
  }

  /** The reference numbers the subthemes list, one subtheme after the other. */
  function SubthemeRefs(subthemes: seq<SubthemeView>): (r: seq<int>)
    ensures forall n :: n in r <==> Cited(subthemes, n)
  {
    if subthemes == [] then []
    else
      var prefix := subthemes[..|subthemes| - 1];
      assert forall s :: s in subthemes <==> s in prefix || s == subthemes[|subthemes| - 1];
      SubthemeRefs(prefix) + subthemes[|subthemes| - 1].references
  }

  /** Every reference number in the analysis, in the order the walk meets them. */
  function AllRefs(themes: seq<ThemeView>): (r: seq<int>)
    ensures forall n :: n in r <==> exists t :: t in themes && Cited(t.subthemes, n)
  {
    if themes == [] then []
    else
      var prefix := themes[..|themes| - 1];
      assert forall t :: t in themes <==> t in prefix || t == themes[|themes| - 1];
      AllRefs(prefix) + SubthemeRefs(themes[|themes| - 1].subthemes)
  }

  lemma {:induction false} RefsOrder(ix: Index, t: ThemeView, s: SubthemeView, refs: seq<int>)
    ensures AddRefs(ix, t, s, refs).order == AppendAll(ix.order, refs)
  {
    if refs != [] {
      RefsOrder(ix, t, s, refs[..|refs| - 1]);
    }
  }

  lemma {:induction false} SubthemesOrder(ix: Index, t: ThemeView, subthemes: seq<SubthemeView>)
    ensures AddSubthemes(ix, t, subthemes).order == AppendAll(ix.order, SubthemeRefs(subthemes))
  {
    if subthemes != [] {
      var prefix, s := subthemes[..|subthemes| - 1], subthemes[|subthemes| - 1];
      SubthemesOrder(ix, t, prefix);
      RefsOrder(AddSubthemes(ix, t, prefix), t, s, s.references);
      AppendAllConcat(ix.order, SubthemeRefs(prefix), s.references);
    }
  }

  lemma {:induction false} ThemesOrder(ix: Index, themes: seq<ThemeView>)
    ensures AddThemes(ix, themes).order == AppendAll(ix.order, AllRefs(themes))
  {
    if themes != [] {
      var prefix, t := themes[..|themes| - 1], themes[|themes| - 1];
      ThemesOrder(ix, prefix);
      SubthemesOrder(AddThemes(ix, prefix), t, t.subthemes);
      AppendAllConcat(ix.order, AllRefs(prefix), SubthemeRefs(t.subthemes));
    }
  }

  /**
   * One entry per reference number found in the analysis, without repeats,
   * in the order the numbers first appear.
   */
  lemma ArticleOrder(themes: seq<ThemeView>)
    ensures var articles, refs := Entries(AddThemes(NoArticles, themes)), Dedup(AllRefs(themes));
      |articles| == |refs| && (forall i :: 0 <= i < |articles| ==> articles[i].articleReference == refs[i]) &&
      refs == FirstOccurrences(AllRefs(themes)) && Distinct(refs) &&
      forall n :: n in refs <==> exists t :: t in themes && Cited(t.subthemes, n)
  {
    ThemesOrder(NoArticles, themes);
    DedupKeepsFirstOccurrences(AllRefs(themes));
  }

  lemma {:induction false} RefsValid(ix: Index, t: ThemeView, s: SubthemeView, refs: seq<int>)
    requires Valid(ix)
    ensures Valid(AddRefs(ix, t, s, refs))
  {
    if refs != [] {
      RefsValid(ix, t, s, refs[..|refs| - 1]);
      AddRefValid(AddRefs(ix, t, s, refs[..|refs| - 1]), t, s, refs[|refs| - 1]);
    }
  }

  lemma {:induction false} SubthemesValid(ix: Index, t: ThemeView, subthemes: seq<SubthemeView>)
    requires Valid(ix)
    ensures Valid(AddSubthemes(ix, t, subthemes))
  {
    if subthemes != [] {
      var prefix, s := subthemes[..|subthemes| - 1], subthemes[|subthemes| - 1];
      SubthemesValid(ix, t, prefix);
      RefsValid(AddSubthemes(ix, t, prefix), t, s, s.references);
    }
  }

  lemma {:induction false} ThemesValid(ix: Index, themes: seq<ThemeView>)
    requires Valid(ix)
    ensures Valid(AddThemes(ix, themes))
  {
    if themes != [] {
      var prefix, t := themes[..|themes| - 1], themes[|themes| - 1];
      ThemesValid(ix, prefix);
      SubthemesValid(AddThemes(ix, prefix), t, t.subthemes);
    }
  }

  /** The names and quotes collected for a paper, without their order or repeats. */
  datatype Members = Members(codes: set<string>, themes: set<string>, subthemes: set<string>, quotes: set<string>)

  const NoMembers := Members({}, {}, {}, {})

  function MembersOf(e: Entry): Members {
    Members(set x | x in e.codes, set x | x in e.themes, set x | x in e.subthemes, set q | q in e.quotes)
  }

  function Union(m: Members, m': Members): Members {
    Members(m.codes + m'.codes, m.themes + m'.themes, m.subthemes + m'.subthemes, m.quotes + m'.quotes)
  }

  /** What subtheme `s` of theme `t` adds to every paper it cites. */
  function Contribution(t: ThemeView, s: SubthemeView): Members {
    Members(set x | x in CodeNames(s.codes), {t.name}, {s.name}, set q | q in QuotesOf(s.codes))
  }

  /** What the subthemes of theme `t` that list `n` add to paper `n`. */
  function FromSubthemes(t: ThemeView, subthemes: seq<SubthemeView>, n: int): Members {
    if subthemes == [] then NoMembers
    else
      var s := subthemes[|subthemes| - 1];
      Union(FromSubthemes(t, subthemes[..|subthemes| - 1], n), if n in s.references then Contribution(t, s) else NoMembers)
  }

  /** What the analysis adds to paper `n`. */
  function FromThemes(themes: seq<ThemeView>, n: int): Members {
    if themes == [] then NoMembers
    else
      var t := themes[|themes| - 1];
      Union(FromThemes(themes[..|themes| - 1], n), FromSubthemes(t, t.subthemes, n))
  }

  lemma UnionAssociative(a: Members, b: Members, c: Members)
    ensures Union(Union(a, b), c) == Union(a, Union(b, c))
  {
  }

  lemma UnionNone(a: Members)
    ensures Union(a, NoMembers) == a
  {
  }

  lemma CiteAdds(e: Entry, t: ThemeView, s: SubthemeView)
    ensures MembersOf(Cite(e, t, s)) == Union(MembersOf(e), Contribution(t, s))
  {
  }

  lemma {:induction false} RefsAdd(ix: Index, t: ThemeView, s: SubthemeView, refs: seq<int>, n: int)
    ensures MembersOf(EntryOf(AddRefs(ix, t, s, refs), n)) ==
      if n in refs then Union(MembersOf(EntryOf(ix, n)), Contribution(t, s)) else MembersOf(EntryOf(ix, n))
  {
    if refs != [] {
      var prefix, r := refs[..|refs| - 1], refs[|refs| - 1];
      RefsAdd(ix, t, s, prefix, n);
      assert n in refs <==> n in prefix || n == r;
      if n == r {
        CiteAdds(EntryOf(AddRefs(ix, t, s, prefix), n), t, s);
      }
    }
  }

  lemma {:induction false} SubthemesAdd(ix: Index, t: ThemeView, subthemes: seq<SubthemeView>, n: int)
    ensures MembersOf(EntryOf(AddSubthemes(ix, t, subthemes), n)) == Union(MembersOf(EntryOf(ix, n)), FromSubthemes(t, subthemes, n))
  {
    if subthemes == [] {
      UnionNone(MembersOf(EntryOf(ix, n)));
    } else {
      var prefix, s := subthemes[..|subthemes| - 1], subthemes[|subthemes| - 1];
      var before := AddSubthemes(ix, t, prefix);
      SubthemesAdd(ix, t, prefix, n);
      RefsAdd(before, t, s, s.references, n);
      var added := if n in s.references then Contribution(t, s) else NoMembers;
      UnionNone(MembersOf(EntryOf(before, n)));
      UnionAssociative(MembersOf(EntryOf(ix, n)), FromSubthemes(t, prefix, n), added);
      assert MembersOf(EntryOf(AddSubthemes(ix, t, subthemes), n)) == Union(MembersOf(EntryOf(before, n)), added);
    }
  }

  lemma {:induction false} ThemesAdd(ix: Index, themes: seq<ThemeView>, n: int)
    ensures MembersOf(EntryOf(AddThemes(ix, themes), n)) == Union(MembersOf(EntryOf(ix, n)), FromThemes(themes, n))
  {
    if themes == [] {
      UnionNone(MembersOf(EntryOf(ix, n)));
    } else {
      var prefix, t := themes[..|themes| - 1], themes[|themes| - 1];
      var before := AddThemes(ix, prefix);
      ThemesAdd(ix, prefix, n);
      SubthemesAdd(before, t, t.subthemes, n);
      UnionAssociative(MembersOf(EntryOf(ix, n)), FromThemes(prefix, n), FromSubthemes(t, t.subthemes, n));
    }
  }

  /** A subtheme of `subthemes` that lists `n` is named `x`. */
  predicate NamedSubtheme(subthemes: seq<SubthemeView>, n: int, x: string) {
    exists s :: s in subthemes && n in s.references && s.name == x
  }

  /** A subtheme of `subthemes` that lists `n` has a code named `x`. */
  predicate NamedCode(subthemes: seq<SubthemeView>, n: int, x: string) {
    exists s :: s in subthemes && n in s.references && exists c :: c in s.codes && c.name == x
  }

  /** A subtheme of `subthemes` that lists `n` has a code with quote `q`. */
  predicate QuotedBy(subthemes: seq<SubthemeView>, n: int, q: string) {
    exists s :: s in subthemes && n in s.references && exists c :: c in s.codes && q in c.quotes
  }

  /** Each subtheme predicate holds of a list exactly when it holds of all but the last subtheme or of the last one. */
  lemma SplitLastSubtheme(subthemes: seq<SubthemeView>, n: int, x: string)
    requires subthemes != []
    ensures var prefix, s := subthemes[..|subthemes| - 1], subthemes[|subthemes| - 1];
      (Cited(subthemes, n) <==> Cited(prefix, n) || n in s.references) &&
      (NamedSubtheme(subthemes, n, x) <==> NamedSubtheme(prefix, n, x) || (n in s.references && s.name == x)) &&
      (NamedCode(subthemes, n, x) <==> NamedCode(prefix, n, x) || (n in s.references && x in CodeNames(s.codes))) &&
      (QuotedBy(subthemes, n, x) <==> QuotedBy(prefix, n, x) || (n in s.references && x in QuotesOf(s.codes)))
  {
    var prefix, s := subthemes[..|subthemes| - 1], subthemes[|subthemes| - 1];
    assert subthemes == prefix + [s];
  }

  lemma {:induction false} FromSubthemesMeaning(t: ThemeView, subthemes: seq<SubthemeView>, n: int)
    ensures var m := FromSubthemes(t, subthemes, n);
      (forall x :: x in m.themes <==> x == t.name && Cited(subthemes, n)) &&
      (forall x :: x in m.subthemes <==> NamedSubtheme(subthemes, n, x)) &&
      (forall x :: x in m.codes <==> NamedCode(subthemes, n, x)) &&
      (forall q :: q in m.quotes <==> QuotedBy(subthemes, n, q))
  {
    if subthemes != [] {
      var prefix, s := subthemes[..|subthemes| - 1], subthemes[|subthemes| - 1];
      FromSubthemesMeaning(t, prefix, n);
      var m, before := FromSubthemes(t, subthemes, n), FromSubthemes(t, prefix, n);
      if n in s.references {
        assert m == Union(before, Contribution(t, s));
      } else {
        assert m == before;
      }
      forall x ensures (x in m.themes <==> x == t.name && Cited(subthemes, n)) &&
        (x in m.subthemes <==> NamedSubtheme(subthemes, n, x)) &&
        (x in m.codes <==> NamedCode(subthemes, n, x)) &&
        (x in m.quotes <==> QuotedBy(subthemes, n, x))
      {
        SplitLastSubtheme(subthemes, n, x);
      }
    }
  }

  /** Some theme named `x` has a subtheme that lists paper `n`. */
  predicate ThemeCites(themes: seq<ThemeView>, n: int, x: string) {
    exists t :: t in themes && t.name == x && Cited(t.subthemes, n)
  }

  /** Some subtheme named `x` lists paper `n`. */
  predicate SubthemeCites(themes: seq<ThemeView>, n: int, x: string) {
    exists t :: t in themes && NamedSubtheme(t.subthemes, n, x)
  }

  /** Some subtheme that lists paper `n` has a code named `x`. */
  predicate CodeCites(themes: seq<ThemeView>, n: int, x: string) {
    exists t :: t in themes && NamedCode(t.subthemes, n, x)
  }

  /** Some subtheme that lists paper `n` has a code with quote `q`. */
  predicate QuoteCites(themes: seq<ThemeView>, n: int, q: string) {
    exists t :: t in themes && QuotedBy(t.subthemes, n, q)
  }

  /** Each theme-level predicate holds of a list exactly when it holds of all but the last theme or of the last one. */

  lemma SplitLastTheme(themes: seq<ThemeView>, n: int, x: string)
    requires themes != []
    ensures var prefix, t := themes[..|themes| - 1], themes[|themes| - 1];
      (ThemeCites(themes, n, x) <==>
        ThemeCites(prefix, n, x) || (t.name == x && Cited(t.subthemes, n))) &&
      (SubthemeCites(themes, n, x) <==>
        SubthemeCites(prefix, n, x) || NamedSubtheme(t.subthemes, n, x)) &&
      (CodeCites(themes, n, x) <==>
        CodeCites(prefix, n, x) || NamedCode(t.subthemes, n, x)) &&
      (QuoteCites(themes, n, x) <==>
        QuoteCites(prefix, n, x) || QuotedBy(t.subthemes, n, x))
  {
    var prefix, t := themes[..|themes| - 1], themes[|themes| - 1];
    assert themes == prefix + [t];
  }

  /** What the analysis adds to paper `n`, described without the walk. */
  lemma {:induction false} FromThemesMeaning(themes: seq<ThemeView>, n: int)
    ensures var m := FromThemes(themes, n);
      (forall x :: x in m.themes <==> ThemeCites(themes, n, x)) &&
      (forall x :: x in m.subthemes <==> SubthemeCites(themes, n, x)) &&
      (forall x :: x in m.codes <==> CodeCites(themes, n, x)) &&
      (forall q :: q in m.quotes <==> QuoteCites(themes, n, q))
  {
    if themes != [] {
      var prefix, t := themes[..|themes| - 1], themes[|themes| - 1];
      FromThemesMeaning(prefix, n);
      FromSubthemesMeaning(t, t.subthemes, n);
      var m, before, added := FromThemes(themes, n), FromThemes(prefix, n), FromSubthemes(t, t.subthemes, n);
      assert m == Union(before, added);
      forall x ensures (x in m.themes <==> ThemeCites(themes, n, x)) &&
        (x in m.subthemes <==> SubthemeCites(themes, n, x)) &&
        (x in m.codes <==> CodeCites(themes, n, x)) &&
        (x in m.quotes <==> QuoteCites(themes, n, x))
      {
        SplitLastTheme(themes, n, x);
        assert x in m.themes <==> x in before.themes || x in added.themes;
        assert x in m.subthemes <==> x in before.subthemes || x in added.subthemes;
        assert x in m.codes <==> x in before.codes || x in added.codes;
        assert x in m.quotes <==> x in before.quotes || x in added.quotes;
        assert x in before.themes <==> ThemeCites(prefix, n, x);
        assert x in before.subthemes <==> SubthemeCites(prefix, n, x);
        assert x in before.codes <==> CodeCites(prefix, n, x);
        assert x in before.quotes <==> QuoteCites(prefix, n, x);
        assert x in added.themes <==> x == t.name && Cited(t.subthemes, n);
        assert x in added.subthemes <==> NamedSubtheme(t.subthemes, n, x);
        assert x in added.codes <==> NamedCode(t.subthemes, n, x);
        assert x in added.quotes <==> QuotedBy(t.subthemes, n, x);
      }
    }
  }

  /** Entry `i` holds, once each, what the analysis adds to its paper, blank quotes dropped. */
  lemma EntryMembers(themes: seq<ThemeView>, i: nat)
    requires i < |Entries(AddThemes(NoArticles, themes))|
    ensures var a := Entries(AddThemes(NoArticles, themes))[i]; var m := FromThemes(themes, a.articleReference);
      Distinct(a.codes) && Distinct(a.themes) && Distinct(a.subthemes) && Distinct(a.quotes) &&
      (forall x :: x in a.themes <==> x in m.themes) && (forall x :: x in a.subthemes <==> x in m.subthemes) &&
      (forall x :: x in a.codes <==> x in m.codes) && (forall q :: q in a.quotes <==> NonBlank(q) && q in m.quotes)
  {
    var ix := AddThemes(NoArticles, themes);
    var n := ix.order[i];
    var e := EntryOf(ix, n);
    ThemesValid(NoArticles, themes);
    ThemesAdd(NoArticles, themes, n);
    assert MembersOf(NewEntry) == NoMembers;
    var m := FromThemes(themes, n);
    assert MembersOf(e) == m;
    forall x ensures (x in e.themes <==> x in m.themes) && (x in e.subthemes <==> x in m.subthemes) &&
      (x in e.codes <==> x in m.codes) && (x in e.quotes <==> x in m.quotes)
    {
    }
  }

  /**
   * The entry of paper `n` lists, once each, the themes and subthemes that
   * cite it, the codes of the citing subthemes, and those codes' quotes that
   * are not blank.
   */
  lemma ArticleContents(themes: seq<ThemeView>, i: nat)
    requires i < |Entries(AddThemes(NoArticles, themes))|
    ensures var a := Entries(AddThemes(NoArticles, themes))[i]; var n := a.articleReference;
      Distinct(a.codes) && Distinct(a.themes) && Distinct(a.subthemes) && Distinct(a.quotes) &&
      (forall x :: x in a.themes <==> ThemeCites(themes, n, x)) &&
      (forall x :: x in a.subthemes <==> SubthemeCites(themes, n, x)) &&
      (forall x :: x in a.codes <==> CodeCites(themes, n, x)) &&
      (forall q :: q in a.quotes <==> NonBlank(q) && QuoteCites(themes, n, q))
  {
    EntryMembers(themes, i);
    FromThemesMeaning(themes, Entries(AddThemes(NoArticles, themes))[i].articleReference);
  }

  /** The decimal digits of `n`, most significant first. */
  function Digits(n: nat): (r: string)
    ensures r != [] && forall k :: 0 <= k < |r| ==> '0' <= r[k] <= '9'
  {
    if n < 10 then [('0' as int + n) as char] else Digits(n / 10) + [('0' as int + n % 10) as char]
  }

  /** `n.toString()` for an integer. */
  function DecimalString(n: int): string {
    if n < 0 then "-" + Digits(-n) else Digits(n)
  }

  /** The value of a string of decimal digits. */
  function DigitsValue(s: string): int {
    if s == [] then 0 else DigitsValue(s[..|s| - 1]) * 10 + (s[|s| - 1] as int - '0' as int)
  }

  /** `parseInt` on a string of digits with an optional minus sign. */
  function ParseDecimal(s: string): int {
    if s != [] && s[0] == '-' then -DigitsValue(s[1..]) else DigitsValue(s)
  }

  lemma {:induction false} DigitsRoundTrip(n: nat)
    ensures DigitsValue(Digits(n)) == n
  {
    if n >= 10 {
      DigitsRoundTrip(n / 10);
      var r := Digits(n);
      assert r[..|r| - 1] == Digits(n / 10);
    }
  }

  /**
   * `parseInt` undoes `toString`, so sorting on `parseInt(articleReference)`
   * is sorting on the reference number itself.
   */
  lemma DecimalRoundTrip(n: int)
    ensures ParseDecimal(DecimalString(n)) == n
  {
    if n < 0 {
      DigitsRoundTrip(-n);
      assert DecimalString(n)[1..] == Digits(-n);
    } else {
      DigitsRoundTrip(n);
    }
  }

  /**
   * The reference number's digits contain the text as typed, or a code,
   * theme, subtheme or quote contains it ignoring case.
   */
  predicate ArticleMatches(a: Article, text: string) {
    Contains(DecimalString(a.articleReference), text) ||
    (exists c :: c in a.codes && Matches(c, text)) ||
    (exists t :: t in a.themes && Matches(t, text)) ||
    (exists s :: s in a.subthemes && Matches(s, text)) ||
    (exists q :: q in a.quotes && Matches(q, text))
  }

  /** `filteredData`: every entry without search text, else the matching entries in order. */
  function FilteredArticles(articles: seq<Article>, text: string): (r: seq<Article>)
    ensures text == "" ==> r == articles
    ensures Subsequence(r, articles)
    ensures text != "" ==> forall a :: a in r <==> a in articles && ArticleMatches(a, text)
  {
    if text == "" then
      SubsequenceReflexive(articles);
      articles
    else Filter(articles, a => ArticleMatches(a, text))
  }

  /** The sortable columns. */
  datatype Column = ReferenceColumn | CodesColumn | ThemesColumn | SubthemesColumn | QuotesColumn

  /** The reference number as a number; a list as its items joined by `, `. */
  function Cell(c: Column): Article -> SortValue {
    match c
    case ReferenceColumn => (a: Article) => Num(a.articleReference)
    case CodesColumn => (a: Article) => Str(Join(a.codes, ", "))
    case ThemesColumn => (a: Article) => Str(Join(a.themes, ", "))
    case SubthemesColumn => (a: Article) => Str(Join(a.subthemes, ", "))
    case QuotesColumn => (a: Article) => Str(Join(a.quotes, ", "))
  }

  /** `sortedData`: the filtered entries, sorted on the clicked column when there is one. */
  function SortedArticles(articles: seq<Article>, config: SortConfig<Column>): (r: seq<Article>)
    ensures config.key.None? ==> r == articles
    ensures config.key.Some? ==> multiset(r) == multiset(articles) && SortedBy(r, Cell(config.key.value), config.direction)
  {
    Sorted(articles, config, Cell)
  }
}
