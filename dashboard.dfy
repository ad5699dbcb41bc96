/**
 * What the dashboard receives from `/api/thematic-analysis` and the list
 * operations its views share: keeping what matches a search, removing
 * repeats in first-appearance order, and sorting on a column that is
 * clicked once for ascending and again for descending.
 */
module Dashboard {
  import opened Wrappers
  import opened Text

  /** A code with its evidence quotes. */
  datatype CodeView = CodeView(name: string, quotes: seq<string>)

  /** A subtheme with its codes and the reference numbers of the papers linked to it. */
  datatype SubthemeView = SubthemeView(id: int, name: string, description: Option<string>,
                                       codes: seq<CodeView>, references: seq<int>)

  datatype ThemeView = ThemeView(id: int, name: string, description: Option<string>, subthemes: seq<SubthemeView>)

  datatype Summary = Summary(totalPapers: int, totalThemes: int, totalSubthemes: int, totalCodes: int)

  /** The response body; `themes` may be missing. */
  datatype Analysis = Analysis(summary: Summary, themes: Option<seq<ThemeView>>)

  /** `s.toLowerCase().includes(term.toLowerCase())`. */
  predicate Matches(s: string, term: string) {
    Contains(Lower(s), Lower(term))
  }

  /** `xs` keeps the elements of `r` in the same order, maybe with others in between. */
  predicate Subsequence<T(==)>(r: seq<T>, xs: seq<T>)
    decreases |xs|
  {
    if r == [] then true
    else if xs == [] then false
    else if r[0] == xs[0] then Subsequence(r[1..], xs[1..])
    else Subsequence(r, xs[1..])
  }

  lemma {:induction false} SubsequenceReflexive<T>(xs: seq<T>)
    ensures Subsequence(xs, xs)
    decreases |xs|
  {
    if xs != [] { SubsequenceReflexive(xs[1..]); }
  }

  /** `xs.filter(keep)`: the elements that pass, in order. */
  function Filter<T(==,!new)>(xs: seq<T>, keep: T -> bool): (r: seq<T>)
    ensures forall x :: x in r <==> x in xs && keep(x)
    ensures Subsequence(r, xs)
  {
    if xs == [] then []
    else
      var rest := Filter(xs[1..], keep);
      assert forall x :: x in xs <==> x == xs[0] || x in xs[1..];
      if keep(xs[0]) then [xs[0]] + rest else rest
  }

  /** `xs` has no repeats. */
  predicate Distinct<T(==,!new)>(xs: seq<T>) {
    forall i, j :: 0 <= i < j < |xs| ==> xs[i] != xs[j]
  }

  /** Adding to a JavaScript `Set`: nothing happens when `x` is already there. */
  function AppendNew<T(==,!new)>(xs: seq<T>, x: T): (r: seq<T>)
    ensures forall y :: y in r <==> y in xs || y == x
    ensures Distinct(xs) ==> Distinct(r)
    ensures xs <= r
  {
    if x in xs then xs else xs + [x]
  }

  /** Adding the elements of `xs` one after the other to the set `base`. */
  function AppendAll<T(==,!new)>(base: seq<T>, xs: seq<T>): (r: seq<T>)
    ensures forall y :: y in r <==> y in base || y in xs
    ensures Distinct(base) ==> Distinct(r)
  {
    if xs == [] then base
    else
      var prefix := xs[..|xs| - 1];
      assert forall y :: y in xs <==> y in prefix || y == xs[|xs| - 1];
      AppendNew(AppendAll(base, prefix), xs[|xs| - 1])
  }

  /** Adding `a` and then `b` is adding `a + b`. */
  lemma {:induction false} AppendAllConcat<T(!new)>(base: seq<T>, a: seq<T>, b: seq<T>)
    ensures AppendAll(base, a + b) == AppendAll(AppendAll(base, a), b)
    decreases |b|
  {
    if b == [] {
      assert a + b == a;
    } else {
      var ab, b' := a + b, b[..|b| - 1];
      assert ab[..|ab| - 1] == a + b' && ab[|ab| - 1] == b[|b| - 1];
      assert AppendAll(base, ab) == AppendNew(AppendAll(base, a + b'), b[|b| - 1]);
      AppendAllConcat(base, a, b');
    }
  }

  /** `[...new Set(xs)]`: one copy of each element. */
  function Dedup<T(==,!new)>(xs: seq<T>): (r: seq<T>)
    ensures forall y :: y in r <==> y in xs
    ensures Distinct(r)
  {
    AppendAll([], xs)
  }

  /** The elements of `xs` at the positions where they first appear: what `Dedup` is meant to give. */
  function FirstOccurrences<T(==,!new)>(xs: seq<T>): seq<T> {
    if xs == [] then []
    else
      var prefix := xs[..|xs| - 1];
      FirstOccurrences(prefix) + (if xs[|xs| - 1] in prefix then [] else [xs[|xs| - 1]])
  }

  /** De-duplication keeps exactly the first occurrence of every element, in order. */
  lemma {:induction false} DedupKeepsFirstOccurrences<T(!new)>(xs: seq<T>)
    ensures Dedup(xs) == FirstOccurrences(xs)
  {
    if xs != [] {
      DedupKeepsFirstOccurrences(xs[..|xs| - 1]);
    }
  }

  /** The value a column sorts on: a number, or a string compared as JavaScript's `<` does. */
  datatype SortValue = Num(n: int) | Str(s: string)

  /** A strict total order on sort values; a column never mixes the two kinds. */
  predicate Less(a: SortValue, b: SortValue) {
    match (a, b)
    case (Num(x), Num(y)) => x < y
    case (Str(x), Str(y)) => LexLess(x, y)
    case (Num(_), Str(_)) => true
    case (Str(_), Num(_)) => false
  }

  lemma LessIrreflexive(a: SortValue)
    ensures !Less(a, a)
  {
    if a.Str? { LexLessIrreflexive(a.s); }
  }

  lemma LessTransitive(a: SortValue, b: SortValue, c: SortValue)
    requires Less(a, b) && Less(b, c)
    ensures Less(a, c)
  {
    if a.Str? && b.Str? && c.Str? { LexLessTransitive(a.s, b.s, c.s); }
  }

  lemma LessTotal(a: SortValue, b: SortValue)
    requires a != b
    ensures Less(a, b) || Less(b, a)
  {
    if a.Str? && b.Str? { LexLessTotal(a.s, b.s); }
  }

  datatype Direction = Asc | Desc

  /** The comparator returns a negative number: `a` goes before `b`. `desc` swaps the operands. */
  predicate Precedes(a: SortValue, b: SortValue, d: Direction) {
    if d == Asc then Less(a, b) else Less(b, a)
  }

  lemma PrecedesAsymmetric(a: SortValue, b: SortValue, d: Direction)
    requires Precedes(a, b, d)
    ensures !Precedes(b, a, d)
  {
    if Precedes(b, a, d) {
      if d == Asc { LessTransitive(a, b, a); } else { LessTransitive(b, a, b); }
      LessIrreflexive(a);
      LessIrreflexive(b);
    }
  }

  /** If `a` is not before `b` and `b` is not before `c`, then `a` is not before `c`. */
  lemma NotPrecedesTransitive(a: SortValue, b: SortValue, c: SortValue, d: Direction)
    requires !Precedes(a, b, d) && !Precedes(b, c, d)
    ensures !Precedes(a, c, d)
  {
    if Precedes(a, c, d) && a != b {
      LessTotal(a, b);
      if d == Asc { LessTransitive(b, a, c); } else { LessTransitive(c, a, b); }
    }
  }

  /** No element is before an element to its left. */
  predicate SortedBy<T>(xs: seq<T>, key: T -> SortValue, d: Direction) {
    forall i, j :: 0 <= i < j < |xs| ==> !Precedes(key(xs[j]), key(xs[i]), d)
  }

  /** Puts `x` in front of the first element it is not after. */
  function Insert<T(==)>(x: T, s: seq<T>, key: T -> SortValue, d: Direction): (r: seq<T>)
    ensures multiset(r) == multiset(s) + multiset{x}
  {
    if s == [] || !Precedes(key(s[0]), key(x), d) then [x] + s
    else
      assert s == [s[0]] + s[1..];
      [s[0]] + Insert(x, s[1..], key, d)
  }

  /** Inserting into a sorted list keeps it sorted. */
  lemma {:induction false} InsertSorted<T>(x: T, s: seq<T>, key: T -> SortValue, d: Direction)
    requires SortedBy(s, key, d)
    ensures SortedBy(Insert(x, s, key, d), key, d)
  {
    var r := Insert(x, s, key, d);
    if s == [] {
    } else if !Precedes(key(s[0]), key(x), d) {
      forall j | 0 < j < |r| ensures !Precedes(key(r[j]), key(x), d) {
        if j > 1 { NotPrecedesTransitive(key(s[j - 1]), key(s[0]), key(x), d); }
      }
    } else {
      var rest := Insert(x, s[1..], key, d);
      InsertSorted(x, s[1..], key, d);
      assert s == [s[0]] + s[1..];
      PrecedesAsymmetric(key(s[0]), key(x), d);
      forall j | 0 < j < |r| ensures !Precedes(key(r[j]), key(s[0]), d) {
        assert r[j] in multiset(rest);
        assert r[j] == x || r[j] in s[1..];
      }
    }
  }

  /**
   * `[...xs].sort(compare)`: a sorted permutation. An element goes in front
   * of the ones it ties with that were after it, so ties keep their order.
   */
  function SortBy<T(==)>(xs: seq<T>, key: T -> SortValue, d: Direction): (r: seq<T>)
    ensures multiset(r) == multiset(xs)
    ensures SortedBy(r, key, d)
  {
    if xs == [] then []
    else
      assert xs == [xs[0]] + xs[1..];
      var rest := SortBy(xs[1..], key, d);
      InsertSorted(xs[0], rest, key, d);
      Insert(xs[0], rest, key, d)
  }

  /** `{ key, direction }`, with `key: null` before any column was clicked. */
  datatype SortConfig<K> = SortConfig(key: Option<K>, direction: Direction)

  /** `handleSort`: the clicked column becomes the key; descending only on a second click of an ascending column. */
  function HandleSort<K(==)>(config: SortConfig<K>, key: K): (r: SortConfig<K>)
    ensures r.key == Some(key)
    ensures r.direction == Desc <==> config.key == Some(key) && config.direction == Asc
  {
    if config.key == Some(key) && config.direction == Asc then SortConfig(Some(key), Desc)
    else SortConfig(Some(key), Asc)
  }

  /** Clicking the same column again and again alternates the direction. */
  lemma HandleSortAlternates<K>(config: SortConfig<K>, key: K)
    ensures var once := HandleSort(config, key);
      HandleSort(once, key).direction != once.direction && HandleSort(HandleSort(once, key), key) == once
  {
  }

  /** `sortedData`: the list as it is without a key, else sorted on the key's column. */
  function Sorted<T(==), K>(xs: seq<T>, config: SortConfig<K>, column: K -> T -> SortValue): (r: seq<T>)
    ensures config.key.None? ==> r == xs
    ensures config.key.Some? ==> multiset(r) == multiset(xs) && SortedBy(r, column(config.key.value), config.direction)
  {
    if config.key.None? then xs else SortBy(xs, column(config.key.value), config.direction)
  }
}
