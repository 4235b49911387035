/**
 * The web configuration page: a working list of fields kept in the browser
 * session, edited in place, and written to the schema file only on "save".
 */
module ConfigWeb {
  import opened Options
  import opened Text
  import opened Schema
  import StableSort

  /** The session's working list (`form_fields`) and the schema file. */
  datatype Page = Page(fields: seq<Field>, file: File<Field>)

  /** The working list is read from the file only when the session has none yet. */
  function Start(session: Option<seq<Field>>, file: File<Field>): (p: Page)
    ensures p.file == file
    ensures session.None? ==> p.fields == Load(file)
    ensures session.Some? ==> p.fields == session.value
  {
    Page(session.GetOr(Load(file)), file)
  }

  /** The data types the page's select boxes offer. */
  predicate WebType(t: DataType) {
    t == Text || t == Number || t == Date
  }

  /** The display order the add form proposes: one more than the number of fields. */
  function DefaultOrder(fields: seq<Field>): (n: int)
    ensures n >= 1 && n > |fields|
    ensures n == |fields| + 1
  {
    |fields| + 1
  }

  /**
   * Adding with the proposed order gives the new field its 1-based position
   * in the session list as its display order.
   */
  lemma AddDefaultOrder(p: Page, name: string, dataType: DataType, unit: string, required: bool)
    requires WebType(dataType) && !AllSpace(name)
    ensures var r := Add(p, name, dataType, unit, required, DefaultOrder(p.fields));
      && |r.fields| == |p.fields| + 1
      && SortKey(r.fields[|r.fields| - 1]) == |r.fields|
  {
  }

  /** Unlike the desktop page, the proposed order can equal an order already in use. */
  lemma DefaultOrderCanRepeat()
    ensures var f := Field("A", Text, "", false, Some(2), None, None, None, None, None, None, None, None, None, None);
      DefaultOrder([f]) == SortKey(f)
  {
  }

  /** The record the add form builds: stripped label and unit, and no layout, help or rule keys. */
  function NewField(name: string, dataType: DataType, unit: string, required: bool, order: int): (f: Field)
    ensures f.labelName == Trim(name) && f.unit == Trim(unit)
    ensures Stripped(f.labelName) && Stripped(f.unit)
    ensures f.dataType == dataType && f.required == required && f.displayOrder == Some(order)
    ensures f.columnPosition.None? && f.newRow.None? && f.placeholder.None? && f.helpText.None?
    ensures f.minValue.None? && f.maxValue.None? && f.regexPattern.None? && f.maxLength.None?
    ensures f.tableColumns.None? && f.tableRows.None?
  {
    Field(Trim(name), dataType, Trim(unit), required, Some(order), None, None, None, None, None, None, None, None, None, None)
  }

  /** "Add": a blank label changes nothing; otherwise one field is appended to the session list (not yet to the file). */
  function Add(p: Page, name: string, dataType: DataType, unit: string, required: bool, order: int): (r: Page)
    requires WebType(dataType) && order >= 1
    ensures r.file == p.file
    ensures AllSpace(name) ==> r == p
    ensures !AllSpace(name) ==>
      && |r.fields| == |p.fields| + 1
      && r.fields[..|p.fields|] == p.fields
      && r.fields[|p.fields|] == NewField(name, dataType, unit, required, order)
      && r.fields[|p.fields|].labelName == Trim(name) != ""
      && r.fields[|p.fields|].unit == Trim(unit)
      && r.fields[|p.fields|].dataType == dataType
      && r.fields[|p.fields|].required == required
      && SortKey(r.fields[|p.fields|]) == order
  {
    if Trim(name) != "" then
      var fields := p.fields + [NewField(name, dataType, unit, required, order)];
      assert fields[..|p.fields|] == p.fields;
      Page(fields, p.file)
    else p
  }

  /**
   * Every render writes the expander's widgets back into the field at `idx`:
   * label, type, unit, required flag and display order are replaced, other
   * keys are kept. The label is neither stripped nor checked for blankness.
   */
  function Rewrite(p: Page, idx: nat, name: string, dataType: DataType, unit: string, required: bool, order: int): (r: Page)
    requires idx < |p.fields|
    requires WebType(p.fields[idx].dataType) && WebType(dataType) && order >= 1
    ensures r.file == p.file && |r.fields| == |p.fields|
    ensures forall i | 0 <= i < |p.fields| && i != idx :: r.fields[i] == p.fields[i]
    ensures var f, g := p.fields[idx], r.fields[idx];
      && g.labelName == name && g.dataType == dataType && g.unit == unit
      && g.required == required && SortKey(g) == order
      && g.columnPosition == f.columnPosition && g.newRow == f.newRow
      && g.minValue == f.minValue && g.maxValue == f.maxValue
      && g.regexPattern == f.regexPattern && g.maxLength == f.maxLength
      && g.tableColumns == f.tableColumns && g.tableRows == f.tableRows
      && g.placeholder == f.placeholder && g.helpText == f.helpText
  {
    var f := p.fields[idx];
    var g := f.(labelName := name, dataType := dataType, unit := unit, required := required, displayOrder := Some(order));
    Page(p.fields[idx := g], p.file)
  }

  /** The display order the widget shows for the field at `idx` before anyone touches it. */
  function ShownOrder(fields: seq<Field>, idx: nat): int
    requires idx < |fields|
  {
    fields[idx].displayOrder.GetOr(idx + 1)
  }

  /**
   * A render with untouched widgets changes only a missing display order,
   * which becomes the field's 1-based position.
   */
  lemma UntouchedRewrite(p: Page, idx: nat)
    requires idx < |p.fields|
    requires WebType(p.fields[idx].dataType) && ShownOrder(p.fields, idx) >= 1
    ensures var f := p.fields[idx];
      var r := Rewrite(p, idx, f.labelName, f.dataType, f.unit, f.required, ShownOrder(p.fields, idx));
      && (f.displayOrder.Some? ==> r == p)
      && (f.displayOrder.None? ==> r.fields[idx] == f.(displayOrder := Some(idx + 1)))
  {
    var f := p.fields[idx];
    if f.displayOrder.Some? {
      assert f.(labelName := f.labelName, dataType := f.dataType, unit := f.unit, required := f.required, displayOrder := f.displayOrder) == f;
      assert p.fields[idx := f] == p.fields;
    }
  }

  /** "Delete" on the expander at `idx`: removes exactly that field from the session list. */
  function Delete(p: Page, idx: nat): (r: Page)
    requires idx < |p.fields|
    ensures r.file == p.file
    ensures |r.fields| == |p.fields| - 1
    ensures forall i | 0 <= i < idx :: r.fields[i] == p.fields[i]
    ensures forall i | idx <= i < |r.fields| :: r.fields[i] == p.fields[i + 1]
    ensures multiset(r.fields) + multiset{p.fields[idx]} == multiset(p.fields)
  {
    assert p.fields == p.fields[..idx] + [p.fields[idx]] + p.fields[idx + 1..];
    Page(p.fields[..idx] + p.fields[idx + 1..], p.file)
  }

  /** "Save": the file receives the session list in stable display order; the session list itself is not reordered. */
  function Save(p: Page): (r: Page)
    ensures r.fields == p.fields
    ensures r.file.Some?
    ensures multiset(r.file.value) == multiset(p.fields)
    ensures StableSort.SortedBy(r.file.value, SortKey)
    ensures StableSort.Stable(p.fields, r.file.value, SortKey)
  {
    Page(p.fields, Some(InDisplayOrder(p.fields)))
  }

  /** A session that reloads the saved file and saves it again writes the same file. */
  lemma SaveIdempotent(p: Page)
    ensures Save(Start(None, Save(p).file)).file == Save(p).file
  {
    StableSort.SortIdempotent(p.fields, SortKey);
  }

  /** "Reset": the session list is emptied and the schema file removed. */
  function Reset(p: Page): (r: Page)
    ensures r.fields == [] && r.file.None? && Load(r.file) == []
  {
    Page([], None)
  }

  /** A session started after a reset sees an empty schema. */
  lemma StartAfterReset(p: Page)
    ensures Start(None, Reset(p).file).fields == []
  {
  }
}
