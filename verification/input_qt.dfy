/**
 * The desktop input page: rebuilding the detail form from the schema file,
 * the number widget's accepted range, and the register button.
 */
module InputQt {
  import opened Options
  import opened Text
  import opened OrderedDict
  import opened Schema
  import opened Records
  import opened Layout
  import opened Validation
  import StableSort

  /** The detail form: fields in display order, their grid slots, and the widget registry keyed by label. */
  datatype Form = Form(fields: seq<Field>, slots: seq<Slot>, widgets: Dict<string, Field>)

  /** Each field under its label, in the order given. */
  function Labelled(fields: seq<Field>): (ps: seq<(string, Field)>)
    ensures |ps| == |fields|
    ensures forall i | 0 <= i < |fields| :: ps[i] == (fields[i].labelName, fields[i])
  {
    seq(|fields|, i requires 0 <= i < |fields| => (fields[i].labelName, fields[i]))
  }

  /**
   * Reloading the form: a missing or empty schema gives an empty form (the
   * page shows a notice); otherwise the fields are sorted by display order,
   * placed by the layout walk, and registered under their labels.
   */
  function ReloadConfig(file: File<Field>): (form: Form)
    ensures Load(file) == [] ==> form == Form([], [], [])
    ensures multiset(form.fields) == multiset(Load(file))
    ensures StableSort.SortedBy(form.fields, SortKey)
    ensures StableSort.Stable(Load(file), form.fields, SortKey)
    ensures |form.slots| == |form.fields|
  {
    var fields := InDisplayOrder(Load(file));
    Form(fields, Resolve(fields), PutAll([], Labelled(fields)))
  }

  /**
   * The widget registry: one entry per label, and each label maps to the
   * last field in display order that carries it (`detail_widgets[label] = …`
   * overwrites an earlier field with the same label).
   */
  lemma WidgetRegistry(file: File<Field>, name: string)
    ensures var form := ReloadConfig(file);
      && UniqueKeys(form.widgets)
      && Get(form.widgets, name) == LastValue(Labelled(form.fields), name)
      && (name in Keys(form.widgets) <==> exists i | 0 <= i < |form.fields| :: form.fields[i].labelName == name)
  {
    var form := ReloadConfig(file);
    var ps := Labelled(form.fields);
    PutAllUnique([], ps);
    PutAllGet([], ps, name);
    LastValueAbsent(ps, name);
  }

  /** A field whose label no later field repeats gets its own widget. */
  lemma LastFieldWins(file: File<Field>, i: nat)
    requires i < |ReloadConfig(file).fields|
    requires var fs := ReloadConfig(file).fields;
      forall j | i < j < |fs| :: fs[j].labelName != fs[i].labelName
    ensures var form := ReloadConfig(file);
      Get(form.widgets, form.fields[i].labelName) == Some(form.fields[i])
  {
    var form := ReloadConfig(file);
    var ps := Labelled(form.fields);
    LastValueAt(ps, i);
    PutAllGet([], ps, form.fields[i].labelName);
  }

  /** With distinct labels the registry lists every field, in display order. */
  lemma DistinctLabelsRegistry(file: File<Field>)
    requires var fs := ReloadConfig(file).fields;
      forall i, j | 0 <= i < j < |fs| :: fs[i].labelName != fs[j].labelName
    ensures var form := ReloadConfig(file);
      form.widgets == Labelled(form.fields)
  {
    PutAllFresh(Labelled(ReloadConfig(file).fields));
  }

  /** The layout of the reloaded form follows the placement rule of `Layout` over the sorted fields. */
  lemma FormLayout(file: File<Field>, i: nat)
    requires i < |ReloadConfig(file).fields|
    ensures var form := ReloadConfig(file);
      && form.slots[i].col < Columns
      && (i == 0 ==> form.slots[0] == Slot(0, 0))
      && (0 < i && BreaksRow(form.fields[i]) ==> form.slots[i] == Slot(form.slots[i - 1].row + 1, 0))
      && (0 < i && !BreaksRow(form.fields[i]) ==> form.slots[i] == Advance(form.slots[i - 1]))
  {
    StepRule(ReloadConfig(file).fields, i);
  }

  /** The default bounds of a number widget when the field gives none. */
  const SpinLimit: real := 999999.99

  /**
   * The range a number widget accepts: `setMinimum(lo)` then
   * `setMaximum(hi)`, where a maximum below the minimum drags the minimum
   * down with it.
   */
  function SpinRange(f: Field): (range: (real, real))
    ensures range.0 <= range.1
    ensures range.1 == f.maxValue.GetOr(SpinLimit)
    ensures f.minValue.GetOr(-SpinLimit) <= range.1 ==> range.0 == f.minValue.GetOr(-SpinLimit)
    ensures f.minValue.GetOr(-SpinLimit) > range.1 ==> range.0 == range.1
  {
    var lo := f.minValue.GetOr(-SpinLimit);
    var hi := f.maxValue.GetOr(SpinLimit);
    (if hi < lo then hi else lo, hi)
  }

  /** Every value the widget can hold passes the range check when the minimum does not exceed the widget's maximum. */
  lemma SpinValuesPass(name: string, f: Field, x: real)
    requires SpinRange(f).0 <= x <= SpinRange(f).1
    requires f.minValue.None? || f.minValue.value <= SpinRange(f).1
    ensures RangeErrors(name, f, x) == []
  {
  }

  /**
   * A number field configured with a minimum above its maximum can never be
   * registered: the widget holds only the maximum, which is below the minimum.
   */
  lemma InvertedRangeBlocks(name: string, f: Field, x: real)
    requires SpinRange(f).0 <= x <= SpinRange(f).1
    requires f.minValue.Some? && f.minValue.value > SpinRange(f).1
    ensures BelowMin(name, f.minValue.value) in RangeErrors(name, f, x)
  {
  }

  /** The result of the register button: what the user is shown, and the data store after it. */
  datatype Registration = Registration(outcome: Outcome, store: File<Record>)

  /** The header gate: product and lot must be non-blank after stripping. */
  predicate HeaderBlank(header: Header) {
    Trim(header.product) == "" || Trim(header.lot) == ""
  }

  /**
   * Pressing the register button. `raws` holds what each registered widget
   * shows; `now` is the registration timestamp.
   */
  function Register(store: File<Record>, header: Header, form: Form, raws: seq<Raw>, matches: Matcher, now: string): (r: Registration)
    requires Aligned(form.widgets, raws)
    ensures HeaderBlank(header) ==> r == Registration(HeaderMissing, store)
    ensures !HeaderBlank(header) ==> (r.outcome.Rejected? <==> CheckAll(form.widgets, raws, matches).errors != [])
    ensures r.outcome.Rejected? ==> r.store == store && r.outcome.errors == CheckAll(form.widgets, raws, matches).errors
    ensures r.outcome.Saved? ==>
      && r.store == Some(Load(store) + [r.outcome.record])
      && r.outcome.record == Record(header.entryDate, Trim(header.product), Trim(header.lot),
                                    CheckAll(form.widgets, raws, matches).details, now)
    ensures !r.outcome.NoSchema?
  {
    if HeaderBlank(header) then Registration(HeaderMissing, store)
    else
      var v := CheckAll(form.widgets, raws, matches);
      if v.errors != [] then Registration(Rejected(v.errors), store)
      else
        var record := Record(header.entryDate, Trim(header.product), Trim(header.lot), v.details, now);
        Registration(Saved(record), Some(Load(store) + [record]))
  }

  /** A registration is saved exactly when the header is filled and every widget passes its check. */
  lemma SavedIff(store: File<Record>, header: Header, form: Form, raws: seq<Raw>, matches: Matcher, now: string)
    requires Aligned(form.widgets, raws)
    ensures Register(store, header, form, raws, matches, now).outcome.Saved?
        <==> !HeaderBlank(header)
             && forall i | 0 <= i < |form.widgets| ::
                  CheckField(form.widgets[i].0, form.widgets[i].1, raws[i], matches).errors == []
  {
    CheckAllMeaning(form.widgets, raws, matches);
  }

  /** Saved records keep the earlier ones: the store only ever grows by one record at its end. */
  lemma RegisterAppends(store: File<Record>, header: Header, form: Form, raws: seq<Raw>, matches: Matcher, now: string)
    requires Aligned(form.widgets, raws)
    ensures var r := Register(store, header, form, raws, matches, now);
      && Load(store) <= Load(r.store)
      && |Load(r.store)| <= |Load(store)| + 1
      && (r.outcome.Saved? <==> |Load(r.store)| == |Load(store)| + 1)
  {
  }

  /**
   * The details a register press collects from a reloaded form list every
   * widget's value under its label, in display order (a saved record
   * carries exactly these).
   */
  lemma SavedDetails(file: File<Field>, raws: seq<Raw>, matches: Matcher)
    requires Aligned(ReloadConfig(file).widgets, raws)
    ensures var form := ReloadConfig(file);
      CheckAll(form.widgets, raws, matches).details == Values(Results(form.widgets, raws, matches))
  {
    var form := ReloadConfig(file);
    PutAllUnique([], Labelled(form.fields));
    CheckAllMeaning(form.widgets, raws, matches);
  }
}
