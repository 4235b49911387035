/**
 * The per-field checks the desktop register button runs over the detail
 * widgets, and the values it collects from them. The regular-expression
 * engine is a parameter: it reports a match at the start of the value, no
 * match, or a pattern that does not compile (which the page ignores).
 */
module Validation {
  import opened Options
  import opened Text
  import opened OrderedDict
  import opened Schema
  import opened Records

  datatype MatchOutcome = Matched | NotMatched | Malformed

  /** `re.match(pattern, value)`, applied as `matches(pattern, value)`. */
  type Matcher = (string, string) -> MatchOutcome

  /** What a detail widget holds when the button is pressed. */
  datatype Raw =
    | NumberEntry(x: real)                          // QDoubleSpinBox.value()
    | TextEntry(text: string)                       // a line edit's text, or a formatted date/time
    | TableEntry(grid: seq<seq<Option<string>>>)    // table cells; None where no item was ever created

  /** The widget kind each data type is given. */
  predicate Fits(t: DataType, raw: Raw) {
    match t
    case Number => raw.NumberEntry?
    case Table => raw.TableEntry?
    case _ => raw.TextEntry?
  }

  /** The header shown when a table field names no usable column. */
  const DefaultHeader: string := "列1"

  /** The column headers of a table widget: the stripped non-empty configured columns, or the default one. */
  function TableHeaders(f: Field): (hs: seq<string>)
    ensures |hs| >= 1
    ensures forall h | h in hs :: h != "" && Stripped(h)
    ensures hs == [DefaultHeader] <==> TrimNonEmpty(f.tableColumns.GetOr([])) in {[], [DefaultHeader]}
    ensures TrimNonEmpty(f.tableColumns.GetOr([])) != [] ==> hs == TrimNonEmpty(f.tableColumns.GetOr([]))
  {
    var cols := TrimNonEmpty(f.tableColumns.GetOr([]));
    assert forall c | c in DefaultHeader :: !IsSpace(c);
    if cols == [] then [DefaultHeader] else cols
  }

  /** The stripped text of cell `c`, or "" for a missing item. */
  function CellText(row: seq<Option<string>>, c: nat): (t: string)
    ensures Stripped(t)
    ensures t != "" <==> c < |row| && row[c].Some? && !AllSpace(row[c].value)
    ensures c < |row| && row[c].Some? ==> t == Trim(row[c].value)
  {
    if c < |row| && row[c].Some? then Trim(row[c].value) else ""
  }

  /** A row is kept when any of its cells, under any header, holds text. */
  predicate RowHasValue(width: nat, row: seq<Option<string>>) {
    exists c | 0 <= c < width :: CellText(row, c) != ""
  }

  /** The header/cell pairs of a row, in column order. */
  function Cells(headers: seq<string>, row: seq<Option<string>>): (ps: seq<(string, string)>)
    ensures |ps| == |headers|
    ensures forall c | 0 <= c < |headers| :: ps[c] == (headers[c], CellText(row, c))
  {
    seq(|headers|, c requires 0 <= c < |headers| => (headers[c], CellText(row, c)))
  }

  /** `row_values[header] = cell_text` for each column in turn. */
  function RowValues(headers: seq<string>, row: seq<Option<string>>): Dict<string, string> {
    PutAll([], Cells(headers, row))
  }

  /** The rows kept from a table, in row order. */
  function TableRows(headers: seq<string>, grid: seq<seq<Option<string>>>): (rows: seq<Dict<string, string>>)
    ensures |rows| <= |grid|
    ensures rows == [] <==> forall r | 0 <= r < |grid| :: !RowHasValue(|headers|, grid[r])
    decreases |grid|
  {
    if |grid| == 0 then []
    else
      var n := |grid| - 1;
      var front := TableRows(headers, grid[..n]);
      assert forall r | 0 <= r < n :: grid[..n][r] == grid[r];
      if RowHasValue(|headers|, grid[n]) then front + [RowValues(headers, grid[n])] else front
  }

  /** A one-row table keeps its row exactly when the row has a non-blank cell. */
  lemma TableRowsOne(headers: seq<string>, row: seq<Option<string>>)
    ensures TableRows(headers, [row]) == (if RowHasValue(|headers|, row) then [RowValues(headers, row)] else [])
  {
    assert [row][..0] == [];
  }

  /** Appending a row to a grid appends what that row alone keeps. */
  lemma TableRowsSnoc(headers: seq<string>, g: seq<seq<Option<string>>>, row: seq<Option<string>>)
    ensures TableRows(headers, g + [row]) == TableRows(headers, g) + TableRows(headers, [row])
  {
    assert (g + [row])[..|g|] == g;
    TableRowsOne(headers, row);
  }

  /**
   * The kept rows of stacked grids are the kept rows of each grid in turn:
   * with `TableRowsOne`, every filled row is kept, in grid order, and no
   * other row.
   */
  lemma {:induction false} TableRowsConcat(headers: seq<string>, a: seq<seq<Option<string>>>, b: seq<seq<Option<string>>>)
    ensures TableRows(headers, a + b) == TableRows(headers, a) + TableRows(headers, b)
    decreases |b|
  {
    if |b| == 0 {
      assert a + b == a;
    } else {
      var n := |b| - 1;
      assert a + b == (a + b[..n]) + [b[n]];
      assert b == b[..n] + [b[n]];
      calc {
        TableRows(headers, a + b);
        TableRows(headers, (a + b[..n]) + [b[n]]);
        { TableRowsSnoc(headers, a + b[..n], b[n]); }
        TableRows(headers, a + b[..n]) + TableRows(headers, [b[n]]);
        { TableRowsConcat(headers, a, b[..n]); }
        TableRows(headers, a) + (TableRows(headers, b[..n]) + TableRows(headers, [b[n]]));
        { TableRowsSnoc(headers, b[..n], b[n]); }
        TableRows(headers, a) + TableRows(headers, b);
      }
    }
  }

  /** A kept row maps each header to the text of the last column carrying that header. */
  lemma RowValuesGet(headers: seq<string>, row: seq<Option<string>>, h: string)
    ensures Get(RowValues(headers, row), h) == LastValue(Cells(headers, row), h)
  {
    PutAllGet([], Cells(headers, row), h);
  }

  /** With distinct headers a kept row is exactly its header/cell pairs. */
  lemma RowValuesDistinct(headers: seq<string>, row: seq<Option<string>>)
    requires forall i, j | 0 <= i < j < |headers| :: headers[i] != headers[j]
    ensures RowValues(headers, row) == Cells(headers, row)
  {
    PutAllFresh(Cells(headers, row));
  }

  /**
   * Two columns under one header: the row counts as filled because of the
   * first cell, yet the empty second cell is what is stored under the header.
   */
  lemma DuplicateHeaderHidesValue()
    ensures var row := [Some("x"), None];
      && RowHasValue(2, row)
      && RowValues(["a", "a"], row) == [("a", "")]
  {
    var row := [Some("x"), None];
    assert Stripped("x");
    TrimStripped("x");
    assert CellText(row, 0) != "";
    var ps := Cells(["a", "a"], row);
    assert ps == [("a", "x"), ("a", "")];
    assert ps[..1][..0] == [];
    assert PutAll([], ps[..1]) == [("a", "x")];
    assert Put([("a", "x")], "a", "") == [("a", "")];
  }

  /** The range messages of a number field: at most one per crossed bound, the minimum's first. */
  function RangeErrors(name: string, f: Field, x: real): (errs: seq<Error>)
    ensures errs == [] <==> (f.minValue.None? || f.minValue.value <= x) && (f.maxValue.None? || x <= f.maxValue.value)
    ensures var below, above := f.minValue.Some? && x < f.minValue.value, f.maxValue.Some? && x > f.maxValue.value;
      && |errs| == (if below then 1 else 0) + (if above then 1 else 0)
      && (below ==> errs[0] == BelowMin(name, f.minValue.value))
      && (above ==> errs[|errs| - 1] == AboveMax(name, f.maxValue.value))
    ensures forall e | e in errs :: (e.BelowMin? && f.minValue == Some(e.bound) && x < e.bound)
                                    || (e.AboveMax? && f.maxValue == Some(e.bound) && x > e.bound)
  {
    (if f.minValue.Some? && x < f.minValue.value then [BelowMin(name, f.minValue.value)] else [])
    + (if f.maxValue.Some? && x > f.maxValue.value then [AboveMax(name, f.maxValue.value)] else [])
  }

  /** The required-field message for a text value that is blank after stripping. */
  function MissingError(name: string, f: Field, text: string): (errs: seq<Error>)
    ensures errs == [] || errs == [Missing(name)]
    ensures errs != [] <==> f.required && AllSpace(text)
  {
    if f.required && Trim(text) == "" then [Missing(name)] else []
  }

  /** Whether the configured pattern rejects a stripped text value. */
  predicate FormatRejects(f: Field, v: string, matches: Matcher) {
    var pattern := f.regexPattern.GetOr("");
    pattern != "" && v != "" && matches(pattern, v) == NotMatched
  }

  datatype Checked = Checked(errors: seq<Error>, value: Value)

  /** A table widget: the kept rows, and the message when a required table keeps none. */
  function TableCheck(name: string, f: Field, grid: seq<seq<Option<string>>>): (c: Checked)
    ensures c.errors == [] || c.errors == [NoRows(name)]
    ensures c.errors != [] <==> f.required && forall r | 0 <= r < |grid| :: !RowHasValue(|TableHeaders(f)|, grid[r])
    ensures c.value == Rows(TableRows(TableHeaders(f), grid))
  {
    var rows := TableRows(TableHeaders(f), grid);
    Checked(if f.required && rows == [] then [NoRows(name)] else [], Rows(rows))
  }

  /** A string or password widget: the value is stripped before the pattern and required checks. */
  function TextCheck(name: string, f: Field, text: string, matches: Matcher): (c: Checked)
    ensures forall e | e in c.errors :: e == BadFormat(name) || e == Missing(name)
    ensures |c.errors| <= 1
    ensures BadFormat(name) in c.errors <==> FormatRejects(f, Trim(text), matches)
    ensures Missing(name) in c.errors <==> f.required && AllSpace(text)
    ensures c.value == Str(Trim(text))
  {
    var v := Trim(text);
    TrimStripped(v);
    Checked((if FormatRejects(f, v, matches) then [BadFormat(name)] else []) + MissingError(name, f, v), Str(v))
  }

  /** The messages and the stored value for one detail widget. */
  function CheckField(name: string, f: Field, raw: Raw, matches: Matcher): (c: Checked)
    requires Fits(f.dataType, raw)
    ensures forall e | e in c.errors :: e.name == name
    ensures Missing(name) in c.errors <==> f.required && raw.TextEntry? && AllSpace(raw.text)
    ensures NoRows(name) in c.errors <==> f.required && f.dataType == Table
                                            && forall r | 0 <= r < |raw.grid| :: !RowHasValue(|TableHeaders(f)|, raw.grid[r])
    ensures BadFormat(name) in c.errors <==> f.dataType in {Text, Password} && FormatRejects(f, Trim(raw.text), matches)
    ensures f.dataType == Number ==> c.value == Num(raw.x) && c.errors == RangeErrors(name, f, raw.x)
    ensures f.dataType in {Text, Password} ==> c.value == Str(Trim(raw.text))
    ensures f.dataType in {Date, DateTime, Time} ==> c.value == Str(raw.text)
    ensures f.dataType == Table ==> c.value == Rows(TableRows(TableHeaders(f), raw.grid))
  {
    match f.dataType
    case Number => Checked(RangeErrors(name, f, raw.x), Num(raw.x))
    case Table => TableCheck(name, f, raw.grid)
    case Text => TextCheck(name, f, raw.text, matches)
    case Password => TextCheck(name, f, raw.text, matches)
    case _ => Checked(MissingError(name, f, raw.text), Str(raw.text))
  }

  /**
   * Only a number widget reports range messages, and a widget's check is
   * clean exactly in these cases: a number within its bounds, a text
   * that the pattern does not reject and is not blank when required, a
   * date or time that is not blank when required, and a table that keeps a
   * row when required.
   */
  lemma CheckFieldClean(name: string, f: Field, raw: Raw, matches: Matcher)
    requires Fits(f.dataType, raw)
    ensures var errs := CheckField(name, f, raw, matches).errors;
      && (f.dataType != Number ==> forall e | e in errs :: !e.BelowMin? && !e.AboveMax?)
      && (f.dataType == Number ==>
            (errs == [] <==> (f.minValue.None? || f.minValue.value <= raw.x) && (f.maxValue.None? || raw.x <= f.maxValue.value)))
      && (f.dataType in {Text, Password} ==>
            (errs == [] <==> !FormatRejects(f, Trim(raw.text), matches) && !(f.required && AllSpace(raw.text))))
      && (f.dataType in {Date, DateTime, Time} ==> (errs == [] <==> !(f.required && AllSpace(raw.text))))
      && (f.dataType == Table ==>
            (errs == [] <==> !(f.required && forall r | 0 <= r < |raw.grid| :: !RowHasValue(|TableHeaders(f)|, raw.grid[r]))))
  {
    var errs := CheckField(name, f, raw, matches).errors;
    if f.dataType in {Text, Password} {
      assert errs == [] <==> BadFormat(name) !in errs && Missing(name) !in errs by {
        if errs != [] { assert errs[0] in errs; }
      }
    }
  }

  /** Registered widgets and what they hold line up: one entry each, of the widget's kind. */
  predicate Aligned(entries: Dict<string, Field>, raws: seq<Raw>) {
    |raws| == |entries| && forall i | 0 <= i < |entries| :: Fits(entries[i].1.dataType, raws[i])
  }

  /** Each registered widget's label with its check, in registry order. */
  function Results(entries: Dict<string, Field>, raws: seq<Raw>, matches: Matcher): (rs: seq<(string, Checked)>)
    requires Aligned(entries, raws)
    ensures |rs| == |entries|
    ensures forall i | 0 <= i < |entries| :: rs[i] == (entries[i].0, CheckField(entries[i].0, entries[i].1, raws[i], matches))
  {
    seq(|entries|, i requires 0 <= i < |entries| => (entries[i].0, CheckField(entries[i].0, entries[i].1, raws[i], matches)))
  }

  /** All messages, in widget order, and `detail_values`. */
  datatype Verdict = Verdict(errors: seq<Error>, details: Dict<string, Value>)

  /** The messages of all checks, in order. */
  function AllErrors(rs: seq<(string, Checked)>): seq<Error>
    decreases |rs|
  {
    if |rs| == 0 then [] else AllErrors(rs[..|rs| - 1]) + rs[|rs| - 1].1.errors
  }

  /** Each value paired with its label, in order. */
  function Values(rs: seq<(string, Checked)>): (ps: Dict<string, Value>)
    ensures |ps| == |rs|
    ensures forall i | 0 <= i < |rs| :: ps[i] == (rs[i].0, rs[i].1.value)
  {
    seq(|rs|, i requires 0 <= i < |rs| => (rs[i].0, rs[i].1.value))
  }

  /** The register loop over the widget registry: messages accumulate, each value is assigned under its label. */
  function CheckAll(entries: Dict<string, Field>, raws: seq<Raw>, matches: Matcher): Verdict
    requires Aligned(entries, raws)
  {
    var rs := Results(entries, raws, matches);
    Verdict(AllErrors(rs), PutAll([], Values(rs)))
  }

  /** Every message comes from some check, and every message of every check is reported. */
  lemma {:induction false} AllErrorsFrom(rs: seq<(string, Checked)>, e: Error)
    ensures e in AllErrors(rs) <==> exists i | 0 <= i < |rs| :: e in rs[i].1.errors
    decreases |rs|
  {
    if |rs| > 0 {
      var n := |rs| - 1;
      AllErrorsFrom(rs[..n], e);
      assert forall i | 0 <= i < n :: rs[..n][i] == rs[i];
    }
  }

  /** No message at all exactly when every check passes. */
  lemma {:induction false} AllErrorsClean(rs: seq<(string, Checked)>)
    ensures AllErrors(rs) == [] <==> forall i | 0 <= i < |rs| :: rs[i].1.errors == []
    decreases |rs|
  {
    if |rs| > 0 {
      var n := |rs| - 1;
      AllErrorsClean(rs[..n]);
      assert forall i | 0 <= i < n :: rs[..n][i] == rs[i];
    }
  }

  /**
   * The register loop: a message list is empty exactly when every widget
   * passes, every message comes from some widget, and with one widget per
   * label `detail_values` holds each widget's value under its label.
   */
  lemma CheckAllMeaning(entries: Dict<string, Field>, raws: seq<Raw>, matches: Matcher)
    requires Aligned(entries, raws)
    ensures var v := CheckAll(entries, raws, matches);
      && (v.errors == [] <==> forall i | 0 <= i < |entries| :: CheckField(entries[i].0, entries[i].1, raws[i], matches).errors == [])
      && (forall e | e in v.errors :: exists i | 0 <= i < |entries| :: e in CheckField(entries[i].0, entries[i].1, raws[i], matches).errors)
      && (UniqueKeys(entries) ==> v.details == Values(Results(entries, raws, matches)))
  {
    var rs := Results(entries, raws, matches);
    AllErrorsClean(rs);
    forall e | e in CheckAll(entries, raws, matches).errors
      ensures exists i | 0 <= i < |entries| :: e in CheckField(entries[i].0, entries[i].1, raws[i], matches).errors
    {
      AllErrorsFrom(rs, e);
    }
    if UniqueKeys(entries) {
      assert UniqueKeys(Values(rs));
      PutAllFresh(Values(rs));
    }
  }
}
