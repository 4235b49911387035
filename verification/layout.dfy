/**
 * The layout walk of the desktop input page: each field, in display order,
 * gets a slot on a grid three fields wide. The label goes to grid column
 * 2*col and the input to 2*col + 1. Only the `new_row` flag influences
 * placement; `column_position` is read but never used.
 */
module Layout {
  import opened Options
  import opened Schema

  const Columns: nat := 3

  /** A position in field units: a row and a column below `Columns`. */
  datatype Slot = Slot(row: nat, col: nat)

  function LabelColumn(s: Slot): nat {
    2 * s.col
  }

  function InputColumn(s: Slot): nat {
    2 * s.col + 1
  }

  /** Before placing: a row break on a partly filled row moves to the start of the next row. */
  function Place(breaks: bool, cursor: Slot): Slot {
    if breaks && cursor.col > 0 then Slot(cursor.row + 1, 0) else cursor
  }

  /** After placing: one column on, wrapping to the next row after the third. */
  function Advance(s: Slot): Slot {
    if s.col + 1 >= Columns then Slot(s.row + 1, 0) else Slot(s.row, s.col + 1)
  }

  /** The cursor walk over the row-break flags, from `cursor`. */
  function Walk(flags: seq<bool>, cursor: Slot): (slots: seq<Slot>)
    requires cursor.col < Columns
    ensures |slots| == |flags|
    ensures forall i | 0 <= i < |slots| :: slots[i].col < Columns && cursor.row <= slots[i].row
    decreases |flags|
  {
    if |flags| == 0 then []
    else
      var s := Place(flags[0], cursor);
      [s] + Walk(flags[1..], Advance(s))
  }

  function Breaks(fields: seq<Field>): (flags: seq<bool>)
    ensures |flags| == |fields|
    ensures forall i | 0 <= i < |fields| :: flags[i] == BreaksRow(fields[i])
  {
    seq(|fields|, i requires 0 <= i < |fields| => BreaksRow(fields[i]))
  }

  /** The slots of `fields`, taken in the order given (the caller sorts them first). */
  function Resolve(fields: seq<Field>): (slots: seq<Slot>)
    ensures |slots| == |fields|
    ensures forall i | 0 <= i < |slots| :: slots[i].col < Columns
    ensures forall i | 0 <= i < |slots| :: LabelColumn(slots[i]) < 2 * Columns && InputColumn(slots[i]) < 2 * Columns
  {
    Walk(Breaks(fields), Slot(0, 0))
  }

  lemma {:induction false} WalkStep(flags: seq<bool>, cursor: Slot, i: nat)
    requires cursor.col < Columns
    requires 0 < i < |flags|
    ensures Walk(flags, cursor)[i] == Place(flags[i], Advance(Walk(flags, cursor)[i - 1]))
    decreases i
  {
    var s := Place(flags[0], cursor);
    var rest := Walk(flags[1..], Advance(s));
    assert Walk(flags, cursor) == [s] + rest;
    if i > 1 {
      WalkStep(flags[1..], Advance(s), i - 1);
    }
  }

  /**
   * The placement rule field by field: the first field at (0, 0); a field
   * with `new_row` at the start of the row after its predecessor's; any
   * other field in the slot after its predecessor's.
   */
  lemma StepRule(fields: seq<Field>, i: nat)
    requires i < |fields|
    ensures var s := Resolve(fields);
      && (i == 0 ==> s[0] == Slot(0, 0))
      && (0 < i && BreaksRow(fields[i]) ==> s[i] == Slot(s[i - 1].row + 1, 0))
      && (0 < i && !BreaksRow(fields[i]) ==> s[i] == Advance(s[i - 1]))
  {
    if i > 0 {
      WalkStep(Breaks(fields), Slot(0, 0), i);
    }
  }

  /** Reading order on slots. */
  predicate Before(a: Slot, b: Slot) {
    a.row < b.row || (a.row == b.row && a.col < b.col)
  }

  /** Later fields sit strictly later in reading order, so rows never decrease and no slot is used twice. */
  lemma {:induction false} InReadingOrder(fields: seq<Field>, i: nat, j: nat)
    requires i < j < |fields|
    ensures Before(Resolve(fields)[i], Resolve(fields)[j])
    decreases j - i
  {
    StepRule(fields, j);
    if i < j - 1 {
      InReadingOrder(fields, i, j - 1);
    }
  }

  /** No two fields share a grid cell, whether label or input. */
  lemma CellsDistinct(fields: seq<Field>, i: nat, j: nat)
    requires i < |fields| && j < |fields| && i != j
    ensures var s, t := Resolve(fields)[i], Resolve(fields)[j];
      && (s.row, LabelColumn(s)) != (t.row, LabelColumn(t))
      && (s.row, InputColumn(s)) != (t.row, InputColumn(t))
      && (s.row, LabelColumn(s)) != (t.row, InputColumn(t))
  {
    if i < j { InReadingOrder(fields, i, j); } else { InReadingOrder(fields, j, i); }
  }

  /** Placement depends on the row-break flags alone: label, type, `column_position` and the rest never move a field. */
  lemma {:induction false} OnlyRowBreaksMatter(a: seq<Field>, b: seq<Field>)
    requires |a| == |b|
    requires forall i | 0 <= i < |a| :: BreaksRow(a[i]) == BreaksRow(b[i])
    ensures Resolve(a) == Resolve(b)
  {
    assert Breaks(a) == Breaks(b);
  }

  /** Without row breaks the fields fill the grid row by row, three to a row. */
  lemma {:induction false} RowMajorWithoutBreaks(fields: seq<Field>, i: nat)
    requires i < |fields|
    requires forall k | 0 <= k < |fields| :: !BreaksRow(fields[k])
    ensures Resolve(fields)[i] == Slot(i / 3, i % 3)
  {
    StepRule(fields, i);
    if i > 0 {
      RowMajorWithoutBreaks(fields, i - 1);
    }
  }

  function Plain(name: string, breaks: bool): Field {
    Field(name, Text, "", false, None, None, Some(breaks), None, None, None, None, None, None, None, None)
  }

  /** A, B, C (new_row), D are placed at (0,0), (0,1), (1,0), (1,1). */
  lemma Example()
    ensures Resolve([Plain("A", false), Plain("B", false), Plain("C", true), Plain("D", false)])
      == [Slot(0, 0), Slot(0, 1), Slot(1, 0), Slot(1, 1)]
  {
    var fields := [Plain("A", false), Plain("B", false), Plain("C", true), Plain("D", false)];
    StepRule(fields, 0);
    StepRule(fields, 1);
    StepRule(fields, 2);
    StepRule(fields, 3);
  }
}
