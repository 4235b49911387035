/**
 * The desktop configuration page: schema list operations that read the
 * schema file, change the list and write it back. The person working the
 * dialog is a function from the dialog as it opens to how it was closed.
 */
module ConfigQt {
  import opened Options
  import opened Text
  import opened Schema
  import opened FieldDialog
  import StableSort

  type User = Dialog -> DialogResult

  /** `max(...)` of the sort keys of a non-empty schema. */
  function MaxKey(config: seq<Field>): (m: int)
    requires |config| > 0
    ensures forall f | f in config :: SortKey(f) <= m
    ensures exists f | f in config :: SortKey(f) == m
  {
    if |config| == 1 then SortKey(config[0])
    else
      var m := MaxKey(config[1..]);
      assert forall f | f in config[1..] :: f in config;
      assert config == [config[0]] + config[1..];
      if SortKey(config[0]) > m then SortKey(config[0]) else m
  }

  /** `max([f.get("display_order", 0) for f in config], default=0) + 1`. */
  function NextOrder(config: seq<Field>): (n: int)
    ensures forall f | f in config :: SortKey(f) < n
    ensures config == [] ==> n == 1
    ensures config != [] ==> exists f | f in config :: SortKey(f) == n - 1
  {
    if |config| == 0 then 1 else MaxKey(config) + 1
  }

  /** The dialog opened by "add": blank except for the proposed display order. */
  function AddDialog(config: seq<Field>): Dialog {
    Open(Blank(NextOrder(config)))
  }

  /** A field is added only when the dialog is accepted with a non-blank label. */
  predicate Adds(out: DialogResult) {
    out.Accepted? && FieldData(out.dialog).labelName != ""
  }

  /** "Add": the new field goes to the end of the stored list; a blank label or Cancel changes nothing. */
  function AddField(file: File<Field>, user: User): (r: File<Field>)
    ensures var out := user(AddDialog(Load(file)));
      && (r != file <==> Adds(out))
      && (Adds(out) ==>
            && r.Some?
            && |Load(r)| == |Load(file)| + 1
            && Load(r)[..|Load(file)|] == Load(file)
            && Load(r)[|Load(file)|] == FieldData(out.dialog))
  {
    var config := Load(file);
    var out := user(AddDialog(config));
    if Adds(out) then
      var r := config + [FieldData(out.dialog)];
      assert r[..|config|] == config;
      Some(r)
    else file
  }

  /** Someone who types a label into the add dialog and presses OK without touching the rest. */
  function TypesLabelOnly(name: string): User {
    (d: Dialog) => Accepted(d.(labelText := name))
  }

  /**
   * Accepting the add dialog with only a label stores the proposed order,
   * which the 1..999 spin box caps; when it fits, the new field sorts after
   * every existing one.
   */
  lemma AddProposesNextOrder(file: File<Field>, name: string)
    requires !AllSpace(name)
    ensures var r := AddField(file, TypesLabelOnly(name));
      var added := Load(r)[|Load(file)|];
      && SortKey(added) == Clamp(NextOrder(Load(file)), 1, 999)
      && added.dataType == Text && !added.required
      && (NextOrder(Load(file)) <= 999 ==> forall f | f in Load(file) :: SortKey(f) < SortKey(added))
  {
  }

  /** "Edit": only an accepted dialog with a non-blank label replaces the entry at `row`, and only in range. */
  function EditField(file: File<Field>, row: int, user: User): (r: File<Field>)
    ensures !(0 <= row < |Load(file)|) ==> r == file
    ensures 0 <= row < |Load(file)| ==>
      var out := user(Open(Load(file)[row]));
      && (!Adds(out) ==> r == file)
      && (Adds(out) ==>
            && r.Some?
            && |Load(r)| == |Load(file)|
            && Load(r)[row] == FieldData(out.dialog)
            && forall i | 0 <= i < |Load(file)| && i != row :: Load(r)[i] == Load(file)[i])
  {
    match file
    case None => file
    case Some(config) =>
      if 0 <= row < |config| then
        var out := user(Open(config[row]));
        if Adds(out) then Some(config[row := FieldData(out.dialog)]) else file
      else file
  }

  /** Someone who presses OK without changing anything. */
  function AcceptsAsIs(): User {
    (d: Dialog) => Accepted(d)
  }

  /** Editing a field the dialog built and pressing OK unchanged leaves the stored schema as it was. */
  lemma EditUnchanged(config: seq<Field>, row: nat, d: Dialog)
    requires row < |config|
    requires InWidgetRanges(d) && !AllSpace(d.labelText)
    requires config[row] == FieldData(d)
    ensures EditField(Some(config), row, AcceptsAsIs()) == Some(config)
  {
    var f := FieldData(d);
    ReopenUnchanged(d);
    assert Adds(Accepted(Open(f))) by {
      assert f.labelName == Trim(d.labelText) != "";
    }
    assert config[row := f] == config;
  }

  /** "Delete" after the confirmation box: removes exactly the entry at `row`, only in range. */
  function DeleteField(file: File<Field>, row: int, confirmed: bool): (r: File<Field>)
    ensures r != file <==> confirmed && 0 <= row < |Load(file)|
    ensures r != file ==>
      && r.Some?
      && |Load(r)| == |Load(file)| - 1
      && (forall i | 0 <= i < row :: Load(r)[i] == Load(file)[i])
      && (forall i | row <= i < |Load(r)| :: Load(r)[i] == Load(file)[i + 1])
      && multiset(Load(r)) + multiset{Load(file)[row]} == multiset(Load(file))
  {
    match file
    case None => file
    case Some(config) =>
      if confirmed && 0 <= row < |config| then
        assert config == config[..row] + [config[row]] + config[row + 1..];
        Some(config[..row] + config[row + 1..])
      else file
  }

  /** "Save": rewrites the stored list in stable display order; with no file there is nothing to save. */
  function SaveConfig(file: File<Field>): (r: File<Field>)
    ensures file.None? ==> r.None?
    ensures file.Some? ==>
      && r.Some?
      && multiset(r.value) == multiset(file.value)
      && StableSort.SortedBy(r.value, SortKey)
      && StableSort.Stable(file.value, r.value, SortKey)
  {
    match file
    case None => None
    case Some(config) => Some(InDisplayOrder(config))
  }

  /** Saving twice stores the same list as saving once. */
  lemma SaveIdempotent(file: File<Field>)
    ensures SaveConfig(SaveConfig(file)) == SaveConfig(file)
  {
    if file.Some? {
      StableSort.SortIdempotent(file.value, SortKey);
    }
  }

  /** "Reset" after the confirmation box: the schema file is removed. */
  function ResetConfig(file: File<Field>, confirmed: bool): (r: File<Field>)
    ensures confirmed ==> r.None? && Load(r) == []
    ensures !confirmed ==> r == file
  {
    if confirmed then None else file
  }

  /** After a reset, an add starts a one-field schema whose proposed order is 1. */
  lemma AddAfterReset(file: File<Field>, name: string)
    requires !AllSpace(name)
    ensures var r := AddField(ResetConfig(file, true), TypesLabelOnly(name));
      r.Some? && |r.value| == 1 && SortKey(r.value[0]) == 1 && r.value[0].labelName == Trim(name)
  {
  }
}
