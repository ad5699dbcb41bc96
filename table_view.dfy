/**
 * `TableView`: the analysis flattened to one row per theme, each followed
 * by one row per subtheme, searched and sorted on the theme, subtheme and
 * codes columns.
 */
module ThemeTable {
  import opened Wrappers
  import opened Text
  import opened Dashboard

  datatype Row = Row(isThemeRow: bool, theme: string, subtheme: string, codes: string,
                     references: seq<int>, description: Option<string>)

  /** The header row of a theme: no subtheme, no codes, no references. */
  function HeaderRow(t: ThemeView): Row {
    Row(true, t.name, "", "", [], t.description)
  }

  /** Every code name of a subtheme in double quotes. */
  function QuotedNames(codes: seq<CodeView>): (r: seq<string>)
    ensures |r| == |codes| && forall i :: 0 <= i < |codes| ==> r[i] == "\"" + codes[i].name + "\""
  {
    seq(|codes|, i requires 0 <= i < |codes| => "\"" + codes[i].name + "\"")
  }

  /** The codes cell: the quoted code names joined by `, `, or empty when there are none. */
  function CodesCell(codes: seq<CodeView>): (r: string)
    ensures codes == [] ==> r == ""
    ensures |codes| == 1 ==> r == "\"" + codes[0].name + "\""
  {
    if |codes| > 0 then Join(QuotedNames(codes), ", ") else ""
  }

  /** Each code's quoted name can be found in the codes cell. */
  lemma CodesCellHasEachCode(codes: seq<CodeView>, i: nat)
    requires i < |codes|
    ensures Contains(CodesCell(codes), "\"" + codes[i].name + "\"")
  {
    JoinContainsEach(QuotedNames(codes), ", ", i);
  }

  function SubthemeRow(t: ThemeView, s: SubthemeView): Row {
    Row(false, t.name, s.name, CodesCell(s.codes), s.references, s.description)
  }

  /** The rows of the first `n` subthemes of `t`. */
  function SubthemeRows(t: ThemeView, n: nat): (r: seq<Row>)
    requires n <= |t.subthemes|
    ensures |r| == n && forall k :: 0 <= k < n ==> r[k] == SubthemeRow(t, t.subthemes[k])
  {
    seq(n, k requires 0 <= k < n => SubthemeRow(t, t.subthemes[k]))
  }

  /** One theme's block: its header row, then a row per subtheme in order. */
  function ThemeRows(t: ThemeView): seq<Row> {
    [HeaderRow(t)] + SubthemeRows(t, |t.subthemes|)
  }

  /** A block starts with the theme's header row, followed by a row per subtheme in order. */
  lemma ThemeRowsShape(t: ThemeView)
    ensures var r := ThemeRows(t);
      |r| == 1 + |t.subthemes| && r[0] == HeaderRow(t) && r[0].isThemeRow &&
      forall k :: 0 <= k < |t.subthemes| ==> r[k + 1] == SubthemeRow(t, t.subthemes[k]) && !r[k + 1].isThemeRow
  {
  }

  /** The blocks of the themes, one after the other. */
  function Rows(themes: seq<ThemeView>): seq<Row> {
    if themes == [] then [] else Rows(themes[..|themes| - 1]) + ThemeRows(themes[|themes| - 1])
  }

  function SubthemeCount(themes: seq<ThemeView>): nat {
    if themes == [] then 0 else SubthemeCount(themes[..|themes| - 1]) + |themes[|themes| - 1].subthemes|
  }

  /** One row per theme and one per subtheme. */
  lemma {:induction false} RowCount(themes: seq<ThemeView>)
    ensures |Rows(themes)| == |themes| + SubthemeCount(themes)
  {
    if themes != [] {
      RowCount(themes[..|themes| - 1]);
    }
  }

  /** Theme `i`'s block sits right after the blocks of the themes before it. */
  lemma {:induction false} ThemeBlock(themes: seq<ThemeView>, i: nat)
    requires i < |themes|
    ensures Rows(themes) == Rows(themes[..i]) + ThemeRows(themes[i]) + Rows(themes[i + 1..])
  {
    var n := |themes| - 1;
    var prefix := themes[..n];
    if i == n {
      assert themes[i + 1..] == [];
    } else {
      ThemeBlock(prefix, i);
      assert prefix[..i] == themes[..i] && prefix[i] == themes[i];
      var after := themes[i + 1..];
      assert after[..|after| - 1] == prefix[i + 1..] && after[|after| - 1] == themes[n];
      assert Rows(after) == Rows(prefix[i + 1..]) + ThemeRows(themes[n]);
      assert Rows(themes) == Rows(prefix) + ThemeRows(themes[n]);
    }
  }

  /** `tableData`: no rows without data or themes, else the blocks of the themes. */
  function TableData(data: Option<Analysis>): seq<Row> {
    if data.None? || data.value.themes.None? then [] else Rows(data.value.themes.value)
  }

  /** The loops of `tableData`, pushing a header row per theme and a row per subtheme. */
  method BuildTableData(data: Option<Analysis>) returns (rows: seq<Row>)
    ensures rows == TableData(data)
  {
    rows := [];
    if data.None? || data.value.themes.None? {
      return;
    }
    var themes := data.value.themes.value;
    for i := 0 to |themes|
      invariant rows == Rows(themes[..i])
    {
      var t := themes[i];
      assert themes[..i + 1][..i] == themes[..i];
      ghost var before := rows;
      rows := rows + [HeaderRow(t)];
      for j := 0 to |t.subthemes|
        invariant rows == before + [HeaderRow(t)] + SubthemeRows(t, j)
      {
        assert SubthemeRows(t, j + 1) == SubthemeRows(t, j) + [SubthemeRow(t, t.subthemes[j])];
        rows := rows + [SubthemeRow(t, t.subthemes[j])];
      }
    }
    assert themes[..|themes|] == themes;
  }

  /** The theme, subtheme or codes cell contains the search text, ignoring case. */
  predicate RowMatches(row: Row, text: string) {
    Matches(row.theme, text) || Matches(row.subtheme, text) || Matches(row.codes, text)
  }

  /** `filteredData`: every row without search text, else the matching rows in order. */
  function FilteredRows(rows: seq<Row>, text: string): (r: seq<Row>)
    ensures text == "" ==> r == rows
    ensures Subsequence(r, rows)
    ensures text != "" ==> forall row :: row in r <==> row in rows && RowMatches(row, text)
  {
    if text == "" then
      SubsequenceReflexive(rows);
      rows
    else Filter(rows, row => RowMatches(row, text))
  }

  /** The sortable columns. */
  datatype Column = ThemeColumn | SubthemeColumn | CodesColumn

  function Cell(c: Column): Row -> SortValue {
    match c
    case ThemeColumn => (row: Row) => Str(row.theme)
    case SubthemeColumn => (row: Row) => Str(row.subtheme)
    case CodesColumn => (row: Row) => Str(row.codes)
  }

  /** `sortedData`: the filtered rows, sorted on the clicked column when there is one. */
  function SortedRows(rows: seq<Row>, config: SortConfig<Column>): (r: seq<Row>)
    ensures config.key.None? ==> r == rows
    ensures config.key.Some? ==> multiset(r) == multiset(rows) && SortedBy(r, Cell(config.key.value), config.direction)
  {
    Sorted(rows, config, Cell)
  }
}
