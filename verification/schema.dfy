/**
 * The field schema: one record per configured input field, persisted as an
 * ordered list in the schema file. Keys that a field dictionary may lack are
 * `Option`s and are read with the same defaults the pages use.
 */
module Schema {
  import opened Options
  import StableSort

  /** The seven data types the configuration dialog offers. */
  datatype DataType = Text | Password | Number | Date | DateTime | Time | Table

  /** The name stored under `data_type`. */
  function TypeName(t: DataType): string {
    match t
    case Text => "文字列"
    case Password => "パスワード"
    case Number => "数値"
    case Date => "日付"
    case DateTime => "日付時刻"
    case Time => "時刻"
    case Table => "表形式"
  }

  /**
   * Reads a stored `data_type`. The input page renders and validates an
   * unknown name with its string branch, and the dialog's type box falls back
   * to its first entry, so every unknown name reads as `Text`.
   */
  function ParseTypeName(name: string): (t: DataType)
    ensures TypeName(t) == name || t == Text
  {
    if name == "パスワード" then Password
    else if name == "数値" then Number
    else if name == "日付" then Date
    else if name == "日付時刻" then DateTime
    else if name == "時刻" then Time
    else if name == "表形式" then Table
    else Text
  }

  /** Every type name reads back as its type. */
  lemma TypeNameRoundTrip(t: DataType)
    ensures ParseTypeName(TypeName(t)) == t
  {
  }

  datatype Field = Field(
    labelName: string,                    // label_name: the field's identity key
    dataType: DataType,                   // data_type
    unit: string,                         // unit (display only)
    required: bool,                       // is_required
    displayOrder: Option<int>,            // display_order: sort key only
    columnPosition: Option<int>,          // column_position: stored, never used for placement
    newRow: Option<bool>,                 // new_row: break the grid row before this field
    placeholder: Option<string>,
    helpText: Option<string>,             // help_text
    minValue: Option<real>,               // number fields only
    maxValue: Option<real>,
    regexPattern: Option<string>,         // string and password fields only
    maxLength: Option<int>,
    tableColumns: Option<seq<string>>,    // table fields only
    tableRows: Option<int>)

  /** `field.get("display_order", 0)`: the key every sort uses. */
  function SortKey(f: Field): int {
    f.displayOrder.GetOr(0)
  }

  /** `field.get("new_row", False)`. */
  function BreaksRow(f: Field): bool {
    f.newRow.GetOr(false)
  }

  /** The schema in display order, as both pages sort it. */
  function InDisplayOrder(fields: seq<Field>): (r: seq<Field>)
    ensures multiset(r) == multiset(fields)
    ensures StableSort.SortedBy(r, SortKey)
    ensures StableSort.Stable(fields, r, SortKey)
  {
    StableSort.Sort(fields, SortKey)
  }

  /** A persisted JSON list: `None` when the file does not exist. */
  type File<T> = Option<seq<T>>

  /** `json.load` of the file, or `[]` when there is no file. */
  function Load<T>(file: File<T>): seq<T> {
    file.GetOr([])
  }
}
