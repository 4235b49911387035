/**
 * The field detail dialog of the desktop configuration page: the widget
 * values it opens with for a stored field, and the field record it builds
 * from its widgets when accepted.
 */
module FieldDialog {
  import opened Options
  import opened Text
  import opened Schema

  /** The widget contents of an open dialog. */
  datatype Dialog = Dialog(
    labelText: string,
    dataType: DataType,
    unitText: string,
    required: bool,
    order: int,             // spin box 1..999
    columnPos: int,         // spin box 1..10
    newRow: bool,
    minValue: real,         // spin boxes -999999.99..999999.99
    maxValue: real,
    regexText: string,
    maxLength: int,         // spin box 0..10000
    placeholderText: string,
    helpText: string,
    columnsText: string,    // table column names, comma-separated
    tableRows: int)         // spin box 1..200

  /** How the modal dialog ended: OK with its final contents, or Cancel. */
  datatype DialogResult = Cancelled | Accepted(dialog: Dialog)

  const NumberLimit: real := 999999.99

  /** A spin box's `setValue`: out-of-range values are pulled to the nearest bound. */
  function Clamp(x: int, lo: int, hi: int): (r: int)
    requires lo <= hi
    ensures lo <= r <= hi
    ensures lo <= x <= hi ==> r == x
    ensures x < lo ==> r == lo
    ensures x > hi ==> r == hi
  {
    if x < lo then lo else if x > hi then hi else x
  }

  function ClampNumber(x: real): (r: real)
    ensures -NumberLimit <= r <= NumberLimit
    ensures -NumberLimit <= x <= NumberLimit ==> r == x
    ensures x < -NumberLimit ==> r == -NumberLimit
    ensures x > NumberLimit ==> r == NumberLimit
  {
    if x < -NumberLimit then -NumberLimit else if x > NumberLimit then NumberLimit else x
  }

  /** Every spin box holds a value within its range. */
  predicate InWidgetRanges(d: Dialog) {
    && 1 <= d.order <= 999
    && 1 <= d.columnPos <= 10
    && -NumberLimit <= d.minValue <= NumberLimit
    && -NumberLimit <= d.maxValue <= NumberLimit
    && 0 <= d.maxLength <= 10000
    && 1 <= d.tableRows <= 200
  }

  /** The dialog as it opens on the stored field `f`, with the dialog's own defaults for absent keys. */
  function Open(f: Field): (d: Dialog)
    ensures InWidgetRanges(d)
    ensures d.labelText == f.labelName && d.dataType == f.dataType && d.unitText == f.unit && d.required == f.required
    ensures d.newRow == BreaksRow(f)
    ensures d.regexText == f.regexPattern.GetOr("")
    ensures d.placeholderText == f.placeholder.GetOr("") && d.helpText == f.helpText.GetOr("")
    ensures d.columnsText == Join(f.tableColumns.GetOr([]), ',')
    ensures f.displayOrder.None? ==> d.order == 1
    ensures f.columnPosition.None? ==> d.columnPos == 1
    ensures f.minValue.None? ==> d.minValue == 0.0
    ensures f.maxValue.None? ==> d.maxValue == 100.0
    ensures f.maxLength.None? ==> d.maxLength == 255
    ensures f.tableRows.None? ==> d.tableRows == 20
    ensures f.displayOrder.Some? && 1 <= f.displayOrder.value <= 999 ==> d.order == f.displayOrder.value
    ensures f.minValue.Some? && -NumberLimit <= f.minValue.value <= NumberLimit ==> d.minValue == f.minValue.value
    ensures f.maxValue.Some? && -NumberLimit <= f.maxValue.value <= NumberLimit ==> d.maxValue == f.maxValue.value
    ensures f.columnPosition.Some? && 1 <= f.columnPosition.value <= 10 ==> d.columnPos == f.columnPosition.value
    ensures f.maxLength.Some? && 0 <= f.maxLength.value <= 10000 ==> d.maxLength == f.maxLength.value
    ensures f.tableRows.Some? && 1 <= f.tableRows.value <= 200 ==> d.tableRows == f.tableRows.value
    ensures f.displayOrder.Some? && f.displayOrder.value > 999 ==> d.order == 999
  {
    Dialog(
      f.labelName, f.dataType, f.unit, f.required,
      Clamp(f.displayOrder.GetOr(1), 1, 999),
      Clamp(f.columnPosition.GetOr(1), 1, 10),
      BreaksRow(f),
      ClampNumber(f.minValue.GetOr(0.0)),
      ClampNumber(f.maxValue.GetOr(100.0)),
      f.regexPattern.GetOr(""),
      Clamp(f.maxLength.GetOr(255), 0, 10000),
      f.placeholder.GetOr(""),
      f.helpText.GetOr(""),
      Join(f.tableColumns.GetOr([]), ','),
      Clamp(f.tableRows.GetOr(20), 1, 200))
  }

  /** The dialog opened to add a field: only the proposed display order is preset. */
  function Blank(order: int): Field {
    Field("", Text, "", false, Some(order), None, None, None, None, None, None, None, None, None, None)
  }

  predicate HasTextRules(t: DataType) {
    t == Text || t == Password
  }

  /**
   * The field record the accepted dialog yields: texts stripped, and the
   * rules of the chosen type only.
   */
  function FieldData(d: Dialog): (f: Field)
    ensures f.labelName == Trim(d.labelText) && f.unit == Trim(d.unitText)
    ensures f.dataType == d.dataType && f.required == d.required
    ensures f.displayOrder == Some(d.order) && f.columnPosition == Some(d.columnPos) && f.newRow == Some(d.newRow)
    ensures f.placeholder == Some(Trim(d.placeholderText)) && f.helpText == Some(Trim(d.helpText))
    ensures d.dataType == Number ==> f.minValue == Some(d.minValue) && f.maxValue == Some(d.maxValue)
    ensures HasTextRules(d.dataType) ==> f.regexPattern == Some(Trim(d.regexText)) && f.maxLength == Some(d.maxLength)
    ensures d.dataType == Table ==> f.tableColumns == Some(ParseColumns(d.columnsText)) && f.tableRows == Some(d.tableRows)
    ensures f.minValue.Some? <==> d.dataType == Number
    ensures f.maxValue.Some? <==> d.dataType == Number
    ensures f.regexPattern.Some? <==> HasTextRules(d.dataType)
    ensures f.maxLength.Some? <==> HasTextRules(d.dataType)
    ensures f.tableColumns.Some? <==> d.dataType == Table
    ensures f.tableRows.Some? <==> d.dataType == Table
  {
    var isNumber := d.dataType == Number;
    var isText := HasTextRules(d.dataType);
    var isTable := d.dataType == Table;
    Field(
      Trim(d.labelText), d.dataType, Trim(d.unitText), d.required,
      Some(d.order), Some(d.columnPos), Some(d.newRow),
      Some(Trim(d.placeholderText)), Some(Trim(d.helpText)),
      if isNumber then Some(d.minValue) else None,
      if isNumber then Some(d.maxValue) else None,
      if isText then Some(Trim(d.regexText)) else None,
      if isText then Some(d.maxLength) else None,
      if isTable then Some(ParseColumns(d.columnsText)) else None,
      if isTable then Some(d.tableRows) else None)
  }

  /**
   * The texts of the built field are the typed texts stripped, so they carry
   * no surrounding whitespace, the label is empty exactly when the typed
   * label is blank, and a table's column names are non-empty, stripped and
   * comma-free.
   */
  lemma FieldDataStripped(d: Dialog)
    ensures var f := FieldData(d);
      && f.labelName == Trim(d.labelText) && f.unit == Trim(d.unitText)
      && f.placeholder == Some(Trim(d.placeholderText)) && f.helpText == Some(Trim(d.helpText))
      && (HasTextRules(d.dataType) ==> f.regexPattern == Some(Trim(d.regexText)))
      && Stripped(f.labelName) && Stripped(f.unit)
      && (f.labelName == "" <==> AllSpace(d.labelText))
      && f.placeholder.Some? && Stripped(f.placeholder.value)
      && f.helpText.Some? && Stripped(f.helpText.value)
      && (f.regexPattern.Some? ==> Stripped(f.regexPattern.value))
      && (f.tableColumns.Some? ==> forall c | c in f.tableColumns.value :: ColumnName(c))
  {
  }

  /**
   * Editing a number field stored without bounds and pressing OK unchanged
   * gives it the dialog's default range of 0 to 100; a string field stored
   * without a length limit gets 255.
   */
  lemma EditAddsDefaultRules(f: Field)
    ensures f.dataType == Number && f.minValue.None? && f.maxValue.None? ==>
      FieldData(Open(f)).minValue == Some(0.0) && FieldData(Open(f)).maxValue == Some(100.0)
    ensures HasTextRules(f.dataType) && f.maxLength.None? ==> FieldData(Open(f)).maxLength == Some(255)
    ensures f.dataType == Table && f.tableRows.None? ==> FieldData(Open(f)).tableRows == Some(20)
  {
  }

  /**
   * The desktop order box stops at 999 while the browser's order input has
   * no upper bound: pressing OK unchanged on a field stored with a larger
   * order stores 999.
   */
  lemma EditCapsOrder(f: Field)
    requires f.displayOrder.Some? && f.displayOrder.value > 999
    ensures FieldData(Open(f)).displayOrder == Some(999)
  {
  }

  /** Re-opening keeps the stripped texts. */
  lemma ReopenTexts(d: Dialog)
    ensures var f := FieldData(d); var h := FieldData(Open(f));
      && h.labelName == f.labelName && h.unit == f.unit
      && h.placeholder == f.placeholder && h.helpText == f.helpText
  {
    TrimIdempotent(d.labelText);
    TrimIdempotent(d.unitText);
    TrimIdempotent(d.placeholderText);
    TrimIdempotent(d.helpText);
  }

  /** Re-opening keeps the column list of a table field. */
  lemma ReopenTable(d: Dialog)
    requires InWidgetRanges(d) && d.dataType == Table
    ensures var f := FieldData(d); var h := FieldData(Open(f));
      h.tableColumns == f.tableColumns && h.tableRows == f.tableRows
  {
    var cols := ParseColumns(d.columnsText);
    var f := FieldData(d);
    assert f.tableColumns == Some(cols) && f.tableRows == Some(d.tableRows);
    var g := Open(f);
    assert g.columnsText == Join(cols, ',') && g.tableRows == d.tableRows;
    ColumnsRoundTrip(cols);
  }

  /** Re-opening keeps the rules of the field's type. */
  lemma ReopenRules(d: Dialog)
    requires InWidgetRanges(d)
    ensures var f := FieldData(d); var h := FieldData(Open(f));
      && h.minValue == f.minValue && h.maxValue == f.maxValue
      && h.regexPattern == f.regexPattern && h.maxLength == f.maxLength
      && h.tableColumns == f.tableColumns && h.tableRows == f.tableRows
  {
    TrimIdempotent(d.regexText);
    if d.dataType == Table {
      ReopenTable(d);
    }
  }

  /** Re-opening a field the dialog built and pressing OK unchanged rebuilds the same field. */
  lemma ReopenUnchanged(d: Dialog)
    requires InWidgetRanges(d)
    ensures FieldData(Open(FieldData(d))) == FieldData(d)
  {
    ReopenTexts(d);
    ReopenRules(d);
  }
}
