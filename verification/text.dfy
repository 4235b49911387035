/**
 * String helpers with Python's semantics: `str.strip()`, `str.split(",")`
 * and `",".join(...)`, and the comma-separated column list of a table field.
 */
module Text {

  /** The characters Python's `str.isspace()` accepts; `strip()` removes exactly these. */
  predicate IsSpace(c: char) {
    || ('\t' <= c <= '\r')
    || ('\U{1c}' <= c <= ' ')
    || c == '\U{85}' || c == '\U{a0}' || c == '\U{1680}'
    || ('\U{2000}' <= c <= '\U{200a}')
    || c == '\U{2028}' || c == '\U{2029}' || c == '\U{202f}' || c == '\U{205f}'
    || c == '\U{3000}'
  }

  predicate AllSpace(s: string) {
    forall i :: 0 <= i < |s| ==> IsSpace(s[i])
  }

  /** No whitespace at either end: the shape of every result of `strip()`. */
  predicate Stripped(s: string) {
    s == [] || (!IsSpace(s[0]) && !IsSpace(s[|s| - 1]))
  }

  /** Length of the whitespace prefix. */
  function LeadingSpace(s: string): (n: nat)
    ensures n <= |s|
    ensures AllSpace(s[..n])
    ensures n < |s| ==> !IsSpace(s[n])
  {
    if |s| == 0 || !IsSpace(s[0]) then 0
    else
      var n := 1 + LeadingSpace(s[1..]);
      assert forall i | 1 <= i < n :: s[..n][i] == s[1..][..n - 1][i - 1];
      n
  }

  /** Length of the whitespace suffix. */
  function TrailingSpace(s: string): (n: nat)
    ensures n <= |s|
    ensures AllSpace(s[|s| - n..])
    ensures n < |s| ==> !IsSpace(s[|s| - n - 1])
  {
    if |s| == 0 || !IsSpace(s[|s| - 1]) then 0
    else
      var n := 1 + TrailingSpace(s[..|s| - 1]);
      assert s[|s| - n..] == s[..|s| - 1][|s| - 1 - (n - 1)..] + [s[|s| - 1]];
      n
  }

  /** Python's `s.strip()`: the text between the whitespace prefix and suffix. */
  function Trim(s: string): (r: string)
    ensures Stripped(r)
    ensures |r| <= |s|
    ensures r == [] <==> AllSpace(s)
    ensures forall c | c in r :: c in s
  {
    var a := LeadingSpace(s);
    var t := s[a..];
    var b := |t| - TrailingSpace(t);
    assert t[..b] == s[a..a + b];
    assert b == 0 ==> forall i | 0 <= i < |s| :: IsSpace(s[i]) by {
      if b == 0 {
        assert a == |s|;
        assert s[..a] == s;
      }
    }
    t[..b]
  }

  /** A text that is already stripped is left alone. */
  lemma TrimStripped(s: string)
    requires Stripped(s)
    ensures Trim(s) == s
  {
    assert LeadingSpace(s) == 0;
    assert TrailingSpace(s) == 0;
  }

  /** `strip()` is idempotent. */
  lemma TrimIdempotent(s: string)
    ensures Trim(Trim(s)) == Trim(s)
  {
    TrimStripped(Trim(s));
  }

  /**
   * Trim is the unique way of cutting whitespace only from the two ends so
   * that what remains is stripped.
   */
  lemma TrimUnique(s: string, i: nat, j: nat)
    requires i <= j <= |s|
    requires AllSpace(s[..i]) && AllSpace(s[j..])
    requires Stripped(s[i..j])
    ensures Trim(s) == s[i..j]
  {
    var a := LeadingSpace(s);
    var t := s[a..];
    var n := TrailingSpace(t);
    if i == j {
      forall k | 0 <= k < |s| ensures IsSpace(s[k]) {
        if k < i { assert s[..i][k] == s[k]; } else { assert s[j..][k - j] == s[k]; }
      }
    } else {
      assert s[i..j][0] == s[i];
      assert s[i..j][j - i - 1] == s[j - 1];
      assert forall k | 0 <= k < i :: s[..i][k] == s[k];
      assert a == i;
      assert forall k | 0 <= k < |s| - j :: s[j..][k] == s[j + k];
      assert |s| - n == j;
    }
  }

  /** Python's `sep.join(parts)`. */
  function Join(parts: seq<string>, sep: char): string
  {
    if |parts| == 0 then ""
    else if |parts| == 1 then parts[0]
    else parts[0] + [sep] + Join(parts[1..], sep)
  }

  /** Python's `s.split(sep)`: never empty, and no piece holds the separator. */
  function Split(s: string, sep: char): (parts: seq<string>)
    ensures |parts| >= 1
    ensures forall p | p in parts :: sep !in p
    decreases |s|
  {
    if |s| == 0 then [""]
    else
      var rest := Split(s[1..], sep);
      if s[0] == sep then [""] + rest
      else [[s[0]] + rest[0]] + rest[1..]
  }

  /** Joining the pieces of a split gives back the text. */
  lemma {:induction false} JoinSplit(s: string, sep: char)
    ensures Join(Split(s, sep), sep) == s
    decreases |s|
  {
    if |s| > 0 {
      var rest := Split(s[1..], sep);
      JoinSplit(s[1..], sep);
      if s[0] == sep {
        assert Split(s, sep) == [""] + rest;
      } else {
        var parts := Split(s, sep);
        assert parts == [[s[0]] + rest[0]] + rest[1..];
        if |rest| == 1 {
          assert s == [s[0]] + s[1..];
        } else {
          assert rest[1..] == parts[1..];
          assert Join(rest, sep) == rest[0] + [sep] + Join(rest[1..], sep);
          assert s == [s[0]] + s[1..];
        }
      }
    }
  }

  /** Splitting at a separator splits each side independently. */
  lemma {:induction false} SplitConcat(a: string, sep: char, b: string)
    ensures Split(a + [sep] + b, sep) == Split(a, sep) + Split(b, sep)
    decreases |a|
  {
    if |a| == 0 {
      SplitCons(sep, b, sep);
      assert a + [sep] + b == [sep] + b;
    } else {
      var t := a[1..] + [sep] + b;
      assert a + [sep] + b == [a[0]] + t;
      assert a == [a[0]] + a[1..];
      var left, right := Split(a[1..], sep), Split(b, sep);
      calc {
        Split(a + [sep] + b, sep);
        Split([a[0]] + t, sep);
        { SplitCons(a[0], t, sep); }
        if a[0] == sep then [""] + Split(t, sep) else [[a[0]] + Split(t, sep)[0]] + Split(t, sep)[1..];
        { SplitConcat(a[1..], sep, b); }
        if a[0] == sep then [""] + (left + right) else [[a[0]] + (left + right)[0]] + (left + right)[1..];
        { ConsFirst(a[0], left, right); }
        (if a[0] == sep then [""] + left else [[a[0]] + left[0]] + left[1..]) + right;
        { SplitCons(a[0], a[1..], sep); }
        Split(a, sep) + right;
      }
    }
  }

  /** Sequence algebra for the split step: extending the first piece commutes with appending pieces. */
  lemma ConsFirst(c: char, left: seq<string>, right: seq<string>)
    requires |left| >= 1
    ensures [[c] + (left + right)[0]] + (left + right)[1..] == ([[c] + left[0]] + left[1..]) + right
    ensures [""] + (left + right) == ([""] + left) + right
  {
    assert (left + right)[1..] == left[1..] + right;
  }

  /** One step of the split: a separator starts a new piece, any other character joins the first piece. */
  lemma SplitCons(c: char, t: string, sep: char)
    ensures Split([c] + t, sep) ==
      if c == sep then [""] + Split(t, sep)
      else [[c] + Split(t, sep)[0]] + Split(t, sep)[1..]
  {
    assert ([c] + t)[0] == c;
    assert ([c] + t)[1..] == t;
  }

  /** A piece without the separator splits to itself. */
  lemma {:induction false} SplitPlain(p: string, sep: char)
    requires sep !in p
    ensures Split(p, sep) == [p]
    decreases |p|
  {
    if |p| > 0 {
      assert p[1..] + [] == p[1..];
      assert sep !in p[1..] by { assert forall c | c in p[1..] :: c in p; }
      SplitPlain(p[1..], sep);
      assert [p[0]] + p[1..] == p;
    }
  }

  /** A separator-free piece followed by the separator splits off as one piece. */
  lemma {:induction false} SplitPrefix(p: string, sep: char, rest: string)
    requires sep !in p
    ensures Split(p + [sep] + rest, sep) == [p] + Split(rest, sep)
    decreases |p|
  {
    var s := p + [sep] + rest;
    if |p| == 0 {
      assert s == [sep] + rest;
      assert s[1..] == rest;
    } else {
      assert sep !in p[1..] by { assert forall c | c in p[1..] :: c in p; }
      SplitPrefix(p[1..], sep, rest);
      assert s[1..] == p[1..] + [sep] + rest;
      assert [p[0]] + p[1..] == p;
    }
  }

  /** Splitting a join of separator-free pieces gives back the pieces. */
  lemma {:induction false} SplitJoin(parts: seq<string>, sep: char)
    requires |parts| >= 1
    requires forall p | p in parts :: sep !in p
    ensures Split(Join(parts, sep), sep) == parts
    decreases |parts|
  {
    if |parts| == 1 {
      SplitPlain(parts[0], sep);
    } else {
      assert forall p | p in parts[1..] :: p in parts;
      SplitJoin(parts[1..], sep);
      SplitPrefix(parts[0], sep, Join(parts[1..], sep));
      assert [parts[0]] + parts[1..] == parts;
    }
  }

  /** `[c.strip() for c in parts if c.strip()]`. */
  function TrimNonEmpty(parts: seq<string>): (r: seq<string>)
    ensures |r| <= |parts|
    ensures forall c | c in r :: c != "" && Stripped(c)
  {
    if |parts| == 0 then []
    else
      var t := Trim(parts[0]);
      (if t == "" then [] else [t]) + TrimNonEmpty(parts[1..])
  }

  /** A single segment is kept as its stripped text exactly when that text is non-empty. */
  lemma TrimNonEmptyOne(p: string)
    ensures TrimNonEmpty([p]) == (if AllSpace(p) then [] else [Trim(p)])
  {
    assert [p][1..] == [];
  }

  /** The filter works segment by segment: every non-blank segment is kept, in order. */
  lemma {:induction false} TrimNonEmptyConcat(a: seq<string>, b: seq<string>)
    ensures TrimNonEmpty(a + b) == TrimNonEmpty(a) + TrimNonEmpty(b)
    decreases |a|
  {
    if |a| > 0 {
      var t := Trim(a[0]);
      var keep := if t == "" then [] else [t];
      assert (a + b)[0] == a[0];
      assert (a + b)[1..] == a[1..] + b;
      assert TrimNonEmpty(a + b) == keep + TrimNonEmpty(a[1..] + b);
      assert TrimNonEmpty(a) == keep + TrimNonEmpty(a[1..]);
      TrimNonEmptyConcat(a[1..], b);
    } else {
      assert a + b == b;
    }
  }

  /** Every kept element is the stripped form of some input element, so no text is invented. */
  lemma {:induction false} TrimNonEmptyFrom(parts: seq<string>, c: string)
    requires c in TrimNonEmpty(parts)
    ensures exists p | p in parts :: c == Trim(p)
    decreases |parts|
  {
    if Trim(parts[0]) != c || Trim(parts[0]) == "" {
      TrimNonEmptyFrom(parts[1..], c);
      var p :| p in parts[1..] && c == Trim(p);
      assert p in parts;
    }
  }

  /** Elements that are already non-empty and stripped pass through unchanged. */
  lemma {:induction false} TrimNonEmptyKeeps(cols: seq<string>)
    requires forall c | c in cols :: c != "" && Stripped(c)
    ensures TrimNonEmpty(cols) == cols
  {
    if |cols| > 0 {
      TrimStripped(cols[0]);
      assert forall c | c in cols[1..] :: c in cols;
      TrimNonEmptyKeeps(cols[1..]);
      assert [cols[0]] + cols[1..] == cols;
    }
  }

  /** A column name as the table dialog keeps it: non-empty, stripped and free of commas. */
  predicate ColumnName(c: string) {
    c != "" && Stripped(c) && ',' !in c
  }

  /**
   * The column list of a table field, parsed from the comma-separated text of
   * the dialog: every comma-separated segment, stripped, empty ones dropped.
   */
  function ParseColumns(text: string): (cols: seq<string>)
    ensures forall c | c in cols :: ColumnName(c)
    ensures ',' !in text ==> cols == (if AllSpace(text) then [] else [Trim(text)])
  {
    var parts := Split(text, ',');
    assert ',' !in text ==> parts == [text] && TrimNonEmpty(parts) == (if AllSpace(text) then [] else [Trim(text)]) by {
      if ',' !in text {
        SplitPlain(text, ',');
        TrimNonEmptyOne(text);
      }
    }
    var cols := TrimNonEmpty(parts);
    assert forall c | c in cols :: ',' !in c by {
      forall c | c in cols ensures ',' !in c {
        TrimNonEmptyFrom(parts, c);
      }
    }
    cols
  }

  /**
   * Re-opening the dialog shows `",".join(columns)`; parsing that text gives
   * back exactly the same column list.
   */
  lemma ColumnsRoundTrip(cols: seq<string>)
    requires forall c | c in cols :: ColumnName(c)
    ensures ParseColumns(Join(cols, ',')) == cols
  {
    if |cols| == 0 {
      assert Split("", ',') == [""];
      assert Trim("") == "";
    } else {
      SplitJoin(cols, ',');
      TrimNonEmptyKeeps(cols);
    }
  }

  /**
   * Parsing distributes over a comma: the columns of the text are the
   * columns of the part before it followed by those of the part after it,
   * so every non-blank segment is kept, in order, and nothing else.
   */
  lemma ParseColumnsConcat(a: string, b: string)
    ensures ParseColumns(a + [','] + b) == ParseColumns(a) + ParseColumns(b)
  {
    SplitConcat(a, ',', b);
    TrimNonEmptyConcat(Split(a, ','), Split(b, ','));
  }
}
