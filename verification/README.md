# Dynamic-form engine of the inspection data-entry app

The application lets an administrator define a data-entry form as a list of
field definitions (label, data type, unit, required flag, display order,
layout hints and type-specific rules) and lets operators fill that form and
append records (date, product, lot number, details keyed by field label) to
a record store. It has two front ends over the same two JSON files: a
desktop one (PySide6: `config_page_qt.py`, `input_page_qt.py`) and a browser
one (Streamlit: `config_page.py`, `input_page.py`).

This project models, with the widgets and files abstracted away:

- the field definition and the field dialog (`schema.dfy`, `field_dialog.dfy`):
  how a dialog's contents become a stored field record, and how a stored
  record re-opens in the dialog;
- the schema list operations of both configuration pages (`config_qt.dfy`,
  `config_web.dfy`): add, edit, delete, save (a stable sort by display
  order), reset, and the proposed display order;
- the layout walk of the desktop input page (`layout.dfy`);
- the per-type checks and value collection of the desktop register button
  (`validation.dfy`, `input_qt.dfy`), and the required check and record
  append of the browser input page (`input_web.dfy`);
- where the two input pages disagree (`front_ends.dfy`).

Shared building blocks: Python's `str.strip`, `split` and `join`
(`text.dfy`), insertion-ordered dicts with Python's assignment semantics
(`ordered_dict.dfy`), and a stable sort proved to be the only stable sort
(`stable_sort.dfy`), which is why it stands for Python's `sorted` and
`list.sort`.

Each persisted file is `File<T> = Option<seq<T>>`, where `None` means the
file does not exist. Loading a missing file gives `[]`. The person at the
keyboard appears as a parameter: a function from the dialog as opened to OK
(with the final contents) or Cancel, a confirmation flag, or what each
widget holds when a button is pressed. The regular-expression engine is a
parameter `matches(pattern, value)` with the outcomes Matched, NotMatched
and Malformed. The clock and Qt's date formatting are plain strings passed
in.

Behaviour of the code worth noting:

- No operation rejects a duplicate label. Later fields with the same label
  overwrite earlier ones in the widget registry and in the details.
- There is no index-out-of-range error: an out-of-range edit or delete on
  the desktop page does nothing.
- `max_length` is never checked at registration.
- The pattern check is `re.match`, which anchors only at the start of the
  value, not a full match.
- The browser page does not strip product and lot before its header gate.
- Writes are plain full rewrites, not atomic replacements.

## Model

| member | source | states |
|---|---|---|
| Text.Trim | config_page_qt.py:190-198 | the stripped text has no surrounding whitespace, is no longer than the input, uses only the input's characters, and is empty exactly when the input is all whitespace |
| Text.TrimIdempotent | config_page_qt.py:190-198 | stripping twice is stripping once |
| Text.TrimUnique | config_page_qt.py:190-198 | any split into a whitespace prefix, a stripped middle and a whitespace suffix has that middle as the stripped text (an independent characterisation of `strip`) |
| Text.Split | config_page_qt.py:212 | `split(",")` yields at least one piece and no piece contains the separator |
| Text.SplitConcat | config_page_qt.py:212 | splitting at a separator splits the text on each side independently and concatenates the pieces |
| Text.JoinSplit | config_page_qt.py:212 | joining the pieces of a split restores the text |
| Text.SplitJoin | config_page_qt.py:149 | splitting a join of comma-free pieces gives the pieces back |
| Text.TrimNonEmpty | config_page_qt.py:212 | the list comprehension never grows the list and keeps only non-empty stripped segments |
| Text.TrimNonEmptyOne | config_page_qt.py:212 | a single segment is kept, as its stripped text, exactly when it is not blank |
| Text.TrimNonEmptyConcat | config_page_qt.py:212 | the comprehension works segment by segment, so every non-blank segment is kept and in its original order |
| Text.TrimNonEmptyFrom | config_page_qt.py:212 | every kept element is the stripped form of some input segment |
| Text.ParseColumns | config_page_qt.py:212 | every parsed table column is non-empty, stripped and comma-free, and a comma-free text gives its stripped self, or no column when it is blank |
| Text.ParseColumnsConcat | config_page_qt.py:212 | parsing distributes over a comma: the columns before it followed by those after it, so every non-blank segment becomes a column, in order, and nothing else does |
| Text.ColumnsRoundTrip | config_page_qt.py:149 | re-opening a table field shows the columns joined by commas, and parsing that text gives exactly the stored column list |
| OrderedDict.Get | input_page.py:143 | `d.get(k)` is absent exactly when `k` is not a key, and otherwise returns a pair of `d` |
| OrderedDict.PutGet | input_page_qt.py:247-252 | after `d[k] = v`, `k` maps to `v` and every other key reads as before |
| OrderedDict.PutKeys | input_page_qt.py:247-252 | assigning a present key keeps the key order; assigning a new key appends it |
| OrderedDict.PutNew | input_page_qt.py:336 | assigning a new key appends the pair at the end |
| OrderedDict.PutAllGet | input_page.py:90-129 | after a run of assignments each key holds the last value written to it; keys never written keep their old value |
| OrderedDict.PutAllFresh | input_page_qt.py:336 | assigning pairs with distinct keys to an empty dict gives exactly those pairs in order |
| OrderedDict.PutAllUnique | input_page_qt.py:247-252 | assignments never create a duplicate key |
| StableSort.Sort | config_page_qt.py:429 | the result is a permutation, non-decreasing in the key, and keeps the original relative order of equal keys |
| StableSort.SortOfSorted | config_page_qt.py:429 | an already ordered list is left as it is |
| StableSort.SortIdempotent | config_page_qt.py:428-433 | sorting a sorted list changes nothing |
| StableSort.StableSortUnique | config_page.py:141-144 | any ordered, stable rearrangement equals this sort, so it is the result Python's sort produces |
| StableSort.SortedStableEqual | config_page.py:141-144 | two ordered lists with the same per-key subsequences are equal |
| Schema.ParseTypeName | config_page_qt.py:50-55 | a known type name reads as its type; any other name falls back to 文字列 (string) |
| Schema.TypeNameRoundTrip | config_page_qt.py:51 | every type's name reads back as that type |
| Schema.InDisplayOrder | input_page_qt.py:133 | the schema sorted by `display_order` (0 when absent) is a stable, ordered permutation of it |
| FieldDialog.Clamp | config_page_qt.py:67-70 | `setValue` on a spin box keeps an in-range value, turns a value below the range into the minimum and one above into the maximum |
| FieldDialog.ClampNumber | config_page_qt.py:97-106 | a bound spin box keeps a value within ±999999.99, turns one below into -999999.99 and one above into 999999.99 |
| FieldDialog.Open | config_page_qt.py:46-156 | the dialog shows the stored label, type, unit, flags, pattern, placeholder, help text and the joined columns; absent keys show order 1, column 1, minimum 0.0, maximum 100.0, length 255 and 20 rows; stored order, column, bounds, length and row count inside their spin box ranges are shown as stored, and an order above 999 shows as 999; every spin box stays inside its range |
| FieldDialog.FieldData | config_page_qt.py:187-216 | the record holds the stripped label and unit, the type, flag, order, column and row break, the stripped placeholder and help text; min/max are the spin box values and present only for 数値, the stripped pattern and max length only for 文字列 and パスワード, the parsed columns and row count only for 表形式 |
| FieldDialog.FieldDataStripped | config_page_qt.py:190-212 | label, unit, placeholder, help text and pattern equal the typed texts stripped, so none has surrounding whitespace; the label is empty exactly when only whitespace was typed; the columns are valid column names |
| FieldDialog.EditAddsDefaultRules | config_page_qt.py:100-214 | accepting an unchanged edit of a number field stored without bounds gives it the range 0 to 100; a string field without a limit gets 255, a table without a row count gets 20 |
| FieldDialog.EditCapsOrder | config_page_qt.py:67-194 | pressing OK unchanged on a field stored with an order above 999 (which the browser editor allows) stores 999 |
| FieldDialog.ReopenTexts | config_page_qt.py:46-198 | re-opening a built record shows the same texts |
| FieldDialog.ReopenTable | config_page_qt.py:146-214 | re-opening a table field and pressing OK keeps its columns and row count |
| FieldDialog.ReopenRules | config_page_qt.py:97-214 | re-opening keeps the type-specific rules |
| FieldDialog.ReopenUnchanged | config_page_qt.py:46-216 | opening a record the dialog built and pressing OK unchanged rebuilds the same record |
| ConfigQt.MaxKey | config_page_qt.py:340 | the maximum display order bounds every field and is attained by one |
| ConfigQt.NextOrder | config_page_qt.py:340 | the proposed order exceeds every stored order, is 1 for an empty schema, and is otherwise one more than an existing order |
| ConfigQt.AddField | config_page_qt.py:332-357 | the stored list changes exactly when OK is pressed with a non-blank label; then it grows by one, the earlier entries are kept, and the dialog's record is last |
| ConfigQt.AddProposesNextOrder | config_page_qt.py:340-344 | a field added with only a label typed gets the proposed order (clamped to 1..999), type 文字列, is optional, and sorts after every existing field while the proposal fits the spin box |
| ConfigQt.EditField | config_page_qt.py:364-385 | out of range nothing changes; in range, only OK with a non-blank label replaces exactly that entry, and every other entry and the length stay |
| ConfigQt.EditUnchanged | config_page_qt.py:370-385 | editing a record the dialog built and pressing OK unchanged leaves the schema as it was |
| ConfigQt.DeleteField | config_page_qt.py:392-412 | the list changes exactly when confirmed and in range; then exactly that entry is removed, the rest keep their order, and the multiset loses that one entry |
| ConfigQt.SaveConfig | config_page_qt.py:422-440 | with no file nothing is written; otherwise the file holds a stable, ordered permutation of itself |
| ConfigQt.SaveIdempotent | config_page_qt.py:428-433 | saving twice stores what saving once stores |
| ConfigQt.ResetConfig | config_page_qt.py:442-454 | a confirmed reset removes the file, leaving an empty schema; otherwise nothing changes |
| ConfigQt.AddAfterReset | config_page_qt.py:335-340 | the first add after a reset proposes display order 1 and gives a one-field schema |
| ConfigWeb.Start | config_page.py:29-30 | the working list comes from the file only when the session has none |
| ConfigWeb.DefaultOrder | config_page.py:110-114 | the proposed order is the number of fields plus one, so at least 1 |
| ConfigWeb.AddDefaultOrder | config_page.py:110-131 | a field added with the proposed order gets its 1-based position in the session list as its display order |
| ConfigWeb.DefaultOrderCanRepeat | config_page.py:110-114 | unlike the desktop proposal, this one can collide with an order already in use |
| ConfigWeb.NewField | config_page.py:120-126 | the new record has the stripped label and unit, the chosen type, flag and order, and none of the layout, placeholder, help, bound, pattern, length, column or row keys |
| ConfigWeb.Add | config_page.py:118-131 | a blank label changes nothing; otherwise exactly the new record (stripped label and unit, chosen type, flag and order) is appended to the session list and the file is untouched |
| ConfigWeb.Rewrite | config_page.py:36-78 | the in-place editors change only the edited field's label, type, unit, flag and order, keep its layout, bound, pattern, length, column, row, placeholder and help keys, and keep every other field |
| ConfigWeb.UntouchedRewrite | config_page.py:73-78 | an untouched expander leaves a field as it is, except that a missing display order is written as its position plus one |
| ConfigWeb.Delete | config_page.py:81-83 | exactly the field at the index is removed and the rest keep their order |
| ConfigWeb.Save | config_page.py:139-145 | the file receives a stable, ordered permutation of the session list, which itself is not reordered |
| ConfigWeb.SaveIdempotent | config_page.py:139-145 | a session that reloads the saved file and saves it again writes the same file |
| ConfigWeb.Reset | config_page.py:149-154 | the session list is emptied and the file removed |
| ConfigWeb.StartAfterReset | config_page.py:149-152 | a session started after a reset sees an empty schema |
| Layout.Walk | input_page_qt.py:136-160 | the walk gives one slot per field, every column below 3, and never a row above the starting one |
| Layout.Resolve | input_page_qt.py:136-160 | every field gets a slot with column below 3, and its label and input land in grid columns below 6 |
| Layout.WalkStep | input_page_qt.py:139-160 | each slot is the previous slot advanced, then moved to the next row start when the field breaks a partly filled row |
| Layout.StepRule | input_page_qt.py:139-160 | the first field sits at (0,0); a `new_row` field starts the row after its predecessor's; any other field takes the slot after its predecessor's |
| Layout.InReadingOrder | input_page_qt.py:136-160 | later fields are strictly later in reading order, so rows never decrease |
| Layout.CellsDistinct | input_page_qt.py:152-153 | no two fields share a grid cell, whether label or input |
| Layout.OnlyRowBreaksMatter | input_page_qt.py:146-153 | placement depends only on the `new_row` flags; `column_position` and every other key never move a field |
| Layout.RowMajorWithoutBreaks | input_page_qt.py:155-160 | without row breaks field i sits at (i / 3, i % 3) |
| Layout.Example | input_page_qt.py:141-160 | A, B, C (new_row), D land at (0,0), (0,1), (1,0), (1,1) |
| Validation.TableHeaders | input_page_qt.py:213-218 | the headers are exactly the non-empty stripped columns when there are any, otherwise the single default 列1 |
| Validation.CellText | input_page_qt.py:304-305 | a cell reads as the stripped text of its item, or "" when there is no item; it is non-empty exactly when the item exists and is not all whitespace |
| Validation.TableRows | input_page_qt.py:298-310 | no more rows are kept than the grid has, and none exactly when no row has a non-blank cell |
| Validation.TableRowsOne | input_page_qt.py:298-310 | a single row is kept, as its header-to-text dict, exactly when it has a non-blank cell |
| Validation.TableRowsSnoc | input_page_qt.py:298-310 | appending a row to the grid appends what that row alone keeps |
| Validation.TableRowsConcat | input_page_qt.py:298-310 | the kept rows of stacked grids are those of each grid in turn, so every filled row is kept, in grid order, and no other |
| Validation.RowValuesGet | input_page_qt.py:303-308 | a kept row maps each header to the text of the last column under that header |
| Validation.RowValuesDistinct | input_page_qt.py:303-308 | with distinct headers a kept row is exactly its header/cell pairs in column order |
| Validation.DuplicateHeaderHidesValue | input_page_qt.py:303-310 | with a repeated header a row can be kept for a filled cell while the stored row shows only the blank later cell |
| Validation.RangeErrors | input_page_qt.py:281-286 | no message exactly when the value is within each present bound; one message per crossed bound, the minimum's first, each naming the bound it crosses |
| Validation.MissingError | input_page_qt.py:328-331 | at most one message, present exactly when the field is required and the text is blank |
| Validation.TableCheck | input_page_qt.py:297-314 | a required table with no filled row gets exactly the one message, and the value is the kept rows |
| Validation.TextCheck | input_page_qt.py:316-331 | the value is stripped; a format message appears exactly when pattern and value are non-empty and the matcher says no match (a malformed pattern passes); a required message appears exactly when the text is blank; at most one message, since a blank value is never pattern-checked |
| Validation.CheckField | input_page_qt.py:276-336 | every message names the field; required is reported only for blank text values, never for numbers or tables; a table reports missing rows instead; the stored value per type is the number, the stripped text, the formatted text or the kept rows |
| Validation.CheckFieldClean | input_page_qt.py:276-336 | only number widgets report range messages; a check is clean exactly when the number is within each present bound, the text is not rejected by the pattern and not blank when required, the date or time is not blank when required, or the table keeps a row when required |
| Validation.AllErrorsFrom | input_page_qt.py:268-336 | every message comes from some field's check, and every field's messages are reported |
| Validation.AllErrorsClean | input_page_qt.py:338-340 | no message at all exactly when every field passes |
| Validation.CheckAllMeaning | input_page_qt.py:267-340 | the register loop reports nothing exactly when every widget passes, every message comes from a widget, and with one widget per label the details hold every value under its label in order |
| InputQt.Labelled | input_page_qt.py:247-252 | each field is paired with its label, in order |
| InputQt.ReloadConfig | input_page_qt.py:104-160 | a missing or empty schema gives an empty form; otherwise the form's fields are a stable, ordered permutation of the schema, each with a slot |
| InputQt.WidgetRegistry | input_page_qt.py:247-252 | the registry has distinct labels, has a label exactly when some field carries it, and maps it to the last such field in display order |
| InputQt.LastFieldWins | input_page_qt.py:247-252 | a field whose label no later field repeats owns its widget |
| InputQt.DistinctLabelsRegistry | input_page_qt.py:247-252 | with distinct labels the registry lists every field in display order |
| InputQt.FormLayout | input_page_qt.py:133-160 | the reloaded form is laid out by the placement rule over the sorted fields |
| InputQt.SpinRange | input_page_qt.py:186-191 | the number widget's range runs up to the configured maximum (default 999999.99); it starts at the configured minimum (default -999999.99) when that does not exceed the maximum, and at the maximum otherwise |
| InputQt.SpinValuesPass | input_page_qt.py:277-286 | every value the widget can hold passes the range check when the minimum does not exceed the widget's maximum |
| InputQt.InvertedRangeBlocks | input_page_qt.py:277-286 | a number field whose minimum exceeds its maximum always fails the minimum check, so it can never be registered |
| InputQt.Register | input_page_qt.py:256-361 | a blank stripped product or lot stops everything; any message rejects and leaves the store alone; otherwise the record with stripped header, collected details and timestamp is appended |
| InputQt.SavedIff | input_page_qt.py:262-340 | a record is saved exactly when the header is filled and every widget passes its check |
| InputQt.RegisterAppends | input_page_qt.py:351-361 | the store keeps every earlier record and grows by one exactly when a record is saved |
| InputQt.SavedDetails | input_page_qt.py:336-347 | the details collected from a reloaded form list each registered widget's value under its label, in display order; a saved record carries exactly these |
| InputWeb.Entered | input_page.py:106-129 | a number widget writes its number and every other widget writes its text unstripped |
| InputWeb.Written | input_page.py:90-129 | the render writes one label/value pair per sorted field, in order |
| InputWeb.RequiredErrors | input_page.py:138-145 | the only messages are "required", and one names a label exactly when a required field with that label has a falsy value (absent, 0, empty or blank) |
| InputWeb.RequiredErrorsOne | input_page.py:140-145 | a single field gives one message exactly when it is required and its value is falsy |
| InputWeb.RequiredErrorsSnoc | input_page.py:140-145 | appending a field appends what that field alone reports |
| InputWeb.RequiredErrorsConcat | input_page.py:140-145 | the messages of a field list are those of each part in turn, so one per required falsy field, in display order, and no other |
| InputWeb.RequiredErrorsEmpty | input_page.py:139-147 | no message exactly when every required field has a truthy value |
| InputWeb.Submit | input_page.py:37-168 | an empty schema or an empty product or lot changes nothing; a rejection leaves the store, keeps the rendered session values and reports the required messages; a save appends a record with the header as typed, the rendered session values as details and the timestamp, and clears the session values |
| InputWeb.SubmittedDetails | input_page.py:84-129 | each label holds what the last sorted field with it entered, and any other key keeps the session's earlier value, so stale values are saved too |
| InputWeb.SavedIff | input_page.py:137-162 | a record is saved exactly when the schema is non-empty, the header is filled and no required field is falsy |
| InputWeb.SubmitAppends | input_page.py:150-167 | the store keeps every earlier record, grows by one exactly on a save, and is otherwise untouched |
| FrontEnds.RequiredZeroDiverges | input_page.py:138-145 | a required number left at 0 passes the desktop check but is rejected as missing by the browser page |
| FrontEnds.ZeroIsMissing | input_page.py:144 | the browser required check counts a lone number field at 0 as missing |
| FrontEnds.BlankHeaderDiverges | input_page.py:76-78 | a product of spaces stops the desktop register but passes the browser gate |
| FrontEnds.EmptySchemaDiverges | input_page.py:40-43 | with no fields the desktop page saves a record with empty details, while the browser page shows only the notice |

## Left out

- File existence checks, reading, writing and JSON (de)serialization are abstracted into `File<T>`. Malformed JSON, which raises in every loader, is not modelled.
- Widget construction, message boxes, signals, tooltips, label text decoration (" (unit)", " *"), `update_table`, `clear_inputs`, `st.rerun` and the browser page's list of registered records are presentation only.
- The regex engine is a parameter; `re.match` semantics are not modelled.
- The clock, `datetime.now().isoformat()` and Qt/Streamlit date formatting are passed in as strings.
- Numbers are exact reals: `QDoubleSpinBox` rounding to two decimals and floating-point comparison are not modelled.
- `max_length` is only a widget limit on typed text (input_page_qt.py:232-244) and is not modelled.
- ConfigQt.DeleteField: the confirmation text reads `self.table.item(row, 0)` before the range check, which fails for a row without a table item. The model treats any confirmed out-of-range row as a no-op.
- ConfigWeb.Rewrite: requires the stored and the chosen type to be browser types (文字列, 数値, 日付), because `.index` on the select box options raises for the desktop-only types and the page fails.
- ConfigWeb.Add: requires an order of at least 1, which the number input enforces.
- ConfigWeb.Delete: requires an index in range, because the button exists only on a listed field.
- InputQt.Register: requires the widget contents to match each widget's kind (a spin box for 数値, a table for 表形式, text otherwise), which the form builds by construction.
- InputWeb.Submit: requires the widget contents to match the browser widgets (a number input for 数値, text otherwise) whenever the form is rendered.
- Field records always carry a label, so a stored field without `label_name` (which the browser page writes under `""` but looks up as `None`, so it is always reported missing) and a stored `display_order` below 1 (which fails the browser editor's number input) are not modelled; neither configuration page produces them.
- `db_config_page.py`, `account_settings_page.py`, `data_view_page.py` and `main.py` (database settings, accounts, record display and application wiring) are not part of this model.
