/**
 * What a registration produces: the values read from the detail widgets,
 * the validation messages, and the record appended to the data store.
 */
module Records {
  import opened OrderedDict

  /** A detail value: a spin-box number, a text (also dates and times), or the kept rows of a table. */
  datatype Value =
    | Num(x: real)
    | Str(s: string)
    | Rows(rows: seq<Dict<string, string>>)

  /** One validation message, naming the field it is about. */
  datatype Error =
    | BelowMin(name: string, bound: real)   // 「…」は{min}以上で入力してください
    | AboveMax(name: string, bound: real)   // 「…」は{max}以下で入力してください
    | BadFormat(name: string)               // 「…」の形式が正しくありません
    | Missing(name: string)                 // 「…」は必須項目です
    | NoRows(name: string)                  // 「…」は最低1行入力してください

  /** The three header inputs, as typed. */
  datatype Header = Header(entryDate: string, product: string, lot: string)

  /** One entry of the data store. */
  datatype Record = Record(
    entryDate: string,
    productName: string,
    lotNo: string,
    details: Dict<string, Value>,
    registeredAt: string)

  /** How a press of the register button ends. */
  datatype Outcome =
    | NoSchema                      // no fields configured: the form is not shown at all
    | HeaderMissing                 // product or lot left empty
    | Rejected(errors: seq<Error>)  // the messages shown; nothing is stored
    | Saved(record: Record)         // the record appended to the store
}
