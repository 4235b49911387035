/**
 * The browser input page: the header gate, the detail values written into
 * the session on every render, the required check over them, and saving.
 * Only numbers and dates get their own widget here; every other type is
 * entered as plain text, and no range, pattern or table rule is applied.
 */
module InputWeb {
  import opened Options
  import opened Text
  import opened OrderedDict
  import opened Schema
  import opened Records
  import opened Validation

  /** The widget the browser page renders: a number input for numbers, a text input (or date picker) otherwise. */
  predicate FitsWeb(t: DataType, raw: Raw) {
    if t == Number then raw.NumberEntry? else raw.TextEntry?
  }

  /** The entries line up with the sorted fields, one widget each. */
  predicate AlignedWeb(fields: seq<Field>, raws: seq<Raw>) {
    |raws| == |fields| && forall i | 0 <= i < |fields| :: FitsWeb(fields[i].dataType, raws[i])
  }

  /** What a widget writes into the session: the number, or the text as typed (unstripped). */
  function Entered(f: Field, raw: Raw): (v: Value)
    requires FitsWeb(f.dataType, raw)
    ensures f.dataType == Number ==> v == Num(raw.x)
    ensures f.dataType != Number ==> v == Str(raw.text)
  {
    if f.dataType == Number then Num(raw.x) else Str(raw.text)
  }

  /** The session writes of one render, in display order. */
  function Written(fields: seq<Field>, raws: seq<Raw>): (ps: Dict<string, Value>)
    requires AlignedWeb(fields, raws)
    ensures |ps| == |fields|
    ensures forall i | 0 <= i < |fields| :: ps[i] == (fields[i].labelName, Entered(fields[i], raws[i]))
  {
    seq(|fields|, i requires 0 <= i < |fields| => (fields[i].labelName, Entered(fields[i], raws[i])))
  }

  /** Python falsiness of `detail_values.get(label)`, with blank strings counted too. */
  predicate Falsy(v: Option<Value>) {
    match v
    case None => true
    case Some(Num(x)) => x == 0.0
    case Some(Str(s)) => AllSpace(s)
    case Some(Rows(rows)) => rows == []
  }

  /** One message per required field whose session value is falsy, in display order. */
  function RequiredErrors(fields: seq<Field>, details: Dict<string, Value>): (errs: seq<Error>)
    ensures forall e | e in errs :: e.Missing?
    ensures forall name :: Missing(name) in errs <==>
      exists i | 0 <= i < |fields| :: fields[i].required && fields[i].labelName == name && Falsy(Get(details, name))
    decreases |fields|
  {
    if |fields| == 0 then []
    else
      var n := |fields| - 1;
      var f := fields[n];
      assert forall i | 0 <= i < n :: fields[..n][i] == fields[i];
      RequiredErrors(fields[..n], details)
      + (if f.required && Falsy(Get(details, f.labelName)) then [Missing(f.labelName)] else [])
  }

  /** A single field gives one message exactly when it is required and its value is falsy. */
  lemma RequiredErrorsOne(f: Field, details: Dict<string, Value>)
    ensures RequiredErrors([f], details) == (if f.required && Falsy(Get(details, f.labelName)) then [Missing(f.labelName)] else [])
  {
    assert [f][..0] == [];
  }

  /**
   * The messages of a field list are those of each part in turn: with
   * `RequiredErrorsOne`, one message per required field with a falsy value,
   * in the fields' order, and no other.
   */
  lemma {:induction false} RequiredErrorsConcat(a: seq<Field>, b: seq<Field>, details: Dict<string, Value>)
    ensures RequiredErrors(a + b, details) == RequiredErrors(a, details) + RequiredErrors(b, details)
    decreases |b|
  {
    if |b| == 0 {
      assert a + b == a;
    } else {
      var n := |b| - 1;
      assert a + b == (a + b[..n]) + [b[n]];
      assert b == b[..n] + [b[n]];
      RequiredErrorsConcat(a, b[..n], details);
      RequiredErrorsSnoc(a + b[..n], b[n], details);
      RequiredErrorsSnoc(b[..n], b[n], details);
    }
  }

  /** Appending a field appends what that field alone reports. */
  lemma RequiredErrorsSnoc(fields: seq<Field>, f: Field, details: Dict<string, Value>)
    ensures RequiredErrors(fields + [f], details) == RequiredErrors(fields, details) + RequiredErrors([f], details)
  {
    assert (fields + [f])[..|fields|] == fields;
    RequiredErrorsOne(f, details);
  }

  /** What a press of the register button leaves behind: the outcome, the data store and the session values. */
  datatype Submission = Submission(outcome: Outcome, store: File<Record>, session: Dict<string, Value>)

  /** The header gate of this page: product and lot must be non-empty as typed (no stripping). */
  predicate HeaderEmpty(header: Header) {
    header.product == "" || header.lot == ""
  }

  /**
   * One render of the page ending in a press of the register button, given
   * the schema file, the data store, the session's detail values and what
   * each widget of the sorted form holds.
   */
  function Submit(config: File<Field>, store: File<Record>, session: Dict<string, Value>, header: Header,
                  raws: seq<Raw>, now: string): (r: Submission)
    requires Load(config) != [] && !HeaderEmpty(header) ==> AlignedWeb(InDisplayOrder(Load(config)), raws)
    ensures Load(config) == [] ==> r == Submission(NoSchema, store, session)
    ensures Load(config) != [] && HeaderEmpty(header) ==> r == Submission(HeaderMissing, store, session)
    ensures r.outcome.Rejected? ==> r.store == store && forall e | e in r.outcome.errors :: e.Missing?
    ensures r.outcome.Rejected? ==>
      && Load(config) != [] && !HeaderEmpty(header)
      && r.session == Rendered(config, session, raws)
      && r.outcome.errors == RequiredErrors(InDisplayOrder(Load(config)), Rendered(config, session, raws))
    ensures r.outcome.Saved? ==>
      && Load(config) != [] && !HeaderEmpty(header)
      && r.outcome.record.details == Rendered(config, session, raws)
    ensures r.outcome.Saved? ==>
      && r.store == Some(Load(store) + [r.outcome.record])
      && r.session == []
      && r.outcome.record.productName == header.product
      && r.outcome.record.lotNo == header.lot
      && r.outcome.record.entryDate == header.entryDate
      && r.outcome.record.registeredAt == now
  {
    var fields := Load(config);
    if fields == [] then Submission(NoSchema, store, session)
    else if HeaderEmpty(header) then Submission(HeaderMissing, store, session)
    else
      var sorted := InDisplayOrder(fields);
      var details := PutAll(session, Written(sorted, raws));
      var errs := RequiredErrors(sorted, details);
      if errs != [] then Submission(Rejected(errs), store, details)
      else
        var record := Record(header.entryDate, header.product, header.lot, details, now);
        Submission(Saved(record), Some(Load(store) + [record]), [])
  }

  /** The session values after the form is rendered. */
  function Rendered(config: File<Field>, session: Dict<string, Value>, raws: seq<Raw>): Dict<string, Value>
    requires AlignedWeb(InDisplayOrder(Load(config)), raws)
  {
    PutAll(session, Written(InDisplayOrder(Load(config)), raws))
  }

  /**
   * The details of a submission: each label holds what the last field in
   * display order with that label entered; any other key keeps the value the
   * session already had, so values left from an earlier schema are saved too.
   */
  lemma SubmittedDetails(config: File<Field>, session: Dict<string, Value>, raws: seq<Raw>, name: string)
    requires AlignedWeb(InDisplayOrder(Load(config)), raws)
    ensures var sorted := InDisplayOrder(Load(config));
      (forall i | 0 <= i < |sorted| :: sorted[i].labelName != name) ==>
        Get(Rendered(config, session, raws), name) == Get(session, name)
    ensures var sorted := InDisplayOrder(Load(config));
      forall i | 0 <= i < |sorted| && (forall j | i < j < |sorted| :: sorted[j].labelName != sorted[i].labelName) ::
        sorted[i].labelName == name ==> Get(Rendered(config, session, raws), name) == Some(Entered(sorted[i], raws[i]))
  {
    var sorted := InDisplayOrder(Load(config));
    var ps := Written(sorted, raws);
    PutAllGet(session, ps, name);
    LastValueAbsent(ps, name);
    forall i | 0 <= i < |sorted| && (forall j | i < j < |sorted| :: sorted[j].labelName != sorted[i].labelName)
                                 && sorted[i].labelName == name
      ensures Get(Rendered(config, session, raws), name) == Some(Entered(sorted[i], raws[i]))
    {
      LastValueAt(ps, i);
    }
  }

  /** No message exactly when every required field has a truthy value. */
  lemma {:induction false} RequiredErrorsEmpty(fields: seq<Field>, details: Dict<string, Value>)
    ensures RequiredErrors(fields, details) == [] <==>
      forall f | f in fields :: f.required ==> !Falsy(Get(details, f.labelName))
    decreases |fields|
  {
    if |fields| > 0 {
      var n := |fields| - 1;
      RequiredErrorsEmpty(fields[..n], details);
      assert fields == fields[..n] + [fields[n]];
    }
  }

  /** Sorting keeps the same fields. */
  lemma SortedMembers(fields: seq<Field>, f: Field)
    ensures f in InDisplayOrder(fields) <==> f in fields
  {
    assert f in fields <==> f in multiset(fields);
    assert f in InDisplayOrder(fields) <==> f in multiset(InDisplayOrder(fields));
  }

  /**
   * A submission is saved exactly when the schema is non-empty, the header
   * is filled, and no required field's rendered value is falsy.
   */
  lemma SavedIff(config: File<Field>, store: File<Record>, session: Dict<string, Value>, header: Header,
                 raws: seq<Raw>, now: string)
    requires Load(config) != [] && !HeaderEmpty(header) ==> AlignedWeb(InDisplayOrder(Load(config)), raws)
    ensures Submit(config, store, session, header, raws, now).outcome.Saved?
        <==> Load(config) != [] && !HeaderEmpty(header)
             && forall f | f in Load(config) :: f.required ==> !Falsy(Get(Rendered(config, session, raws), f.labelName))
  {
    var fields := Load(config);
    if fields != [] && !HeaderEmpty(header) {
      var sorted := InDisplayOrder(fields);
      RequiredErrorsEmpty(sorted, Rendered(config, session, raws));
      forall f ensures f in sorted <==> f in fields {
        SortedMembers(fields, f);
      }
    }
  }

  /** Saving clears the session and grows the store by exactly the new record; any other outcome leaves the store alone. */
  lemma SubmitAppends(config: File<Field>, store: File<Record>, session: Dict<string, Value>, header: Header,
                      raws: seq<Raw>, now: string)
    requires Load(config) != [] && !HeaderEmpty(header) ==> AlignedWeb(InDisplayOrder(Load(config)), raws)
    ensures var r := Submit(config, store, session, header, raws, now);
      && Load(store) <= Load(r.store)
      && (r.outcome.Saved? <==> |Load(r.store)| == |Load(store)| + 1)
      && (!r.outcome.Saved? ==> r.store == store)
  {
  }
}
