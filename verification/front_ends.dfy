/**
 * Where the desktop and browser input pages disagree on the same schema and
 * the same input.
 */
module FrontEnds {
  import opened Options
  import opened Text
  import opened Schema
  import opened Records
  import opened Validation
  import opened OrderedDict
  import InputQt
  import InputWeb

  /** A required number field with no bounds. */
  function RequiredNumber(name: string): Field {
    Field(name, Number, "", true, None, None, None, None, None, None, None, None, None, None, None)
  }

  /**
   * A required number left at 0: the desktop page accepts it (only blank
   * strings count as missing there), the browser page rejects it as missing
   * (0 is falsy).
   */
  lemma RequiredZeroDiverges(name: string, matches: Matcher, store: File<Record>, header: Header, now: string)
    requires !InputWeb.HeaderEmpty(header)
    ensures CheckField(name, RequiredNumber(name), NumberEntry(0.0), matches).errors == []
    ensures InputWeb.Submit(Some([RequiredNumber(name)]), store, [], header, [NumberEntry(0.0)], now).outcome
            == Rejected([Missing(name)])
  {
    var f := RequiredNumber(name);
    var sorted := InDisplayOrder([f]);
    assert |sorted| == 1 && sorted[0] in multiset([f]);
    assert sorted == [f];
    ZeroIsMissing(f);
  }

  /** The browser page's required check on a lone number field left at 0. */
  lemma ZeroIsMissing(f: Field)
    requires f.dataType == Number && f.required
    ensures var details := PutAll([], InputWeb.Written([f], [NumberEntry(0.0)]));
      InputWeb.RequiredErrors([f], details) == [Missing(f.labelName)]
  {
    var ps := InputWeb.Written([f], [NumberEntry(0.0)]);
    assert ps == [(f.labelName, Num(0.0))];
    PutAllFresh(ps);
    var details := PutAll([], ps);
    assert details == [(f.labelName, Num(0.0))];
    assert InputWeb.Falsy(Get(details, f.labelName));
    assert [f][..0] == [];
  }

  /** A header of spaces: the desktop page strips it and refuses; the browser page lets it through. */
  lemma BlankHeaderDiverges(header: Header, config: File<Field>, store: File<Record>, session: Dict<string, Value>,
                            raws: seq<Raw>, now: string)
    requires header.product != "" && header.lot != ""
    requires AllSpace(header.product)
    requires Load(config) != [] ==> InputWeb.AlignedWeb(InDisplayOrder(Load(config)), raws)
    ensures InputQt.HeaderBlank(header)
    ensures InputWeb.Submit(config, store, session, header, raws, now).outcome != HeaderMissing
  {
  }

  /**
   * With no fields configured the desktop page still saves a record with
   * empty details, while the browser page shows only the notice.
   */
  lemma EmptySchemaDiverges(config: File<Field>, store: File<Record>, session: Dict<string, Value>,
                            header: Header, matches: Matcher, now: string)
    requires Load(config) == []
    requires !InputQt.HeaderBlank(header)
    ensures var r := InputQt.Register(store, header, InputQt.ReloadConfig(config), [], matches, now);
      r.outcome.Saved? && r.outcome.record.details == []
    ensures InputWeb.Submit(config, store, session, header, [], now).outcome == NoSchema
  {
  }
}
