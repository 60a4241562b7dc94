/** `compose_field`, the preprocessing step of `build_dataset`
    (sl_transformer.py): every frame row becomes one source token made of
    the values of the selected attributes, each left-justified to 20
    characters, joined by "-". */
module Fields {
  import opened Wrappers
  import opened Strings

  /** One attribute of a frame as the JSON row holds it: a falsy value
      (`null` or `{}`), an object with a "value" entry, or a non-empty object
      without one. */
  datatype Attribute = Falsy | Valued(value: string) | NoValue

  type Row = map<string, Attribute>

  /** The `KeyError` `compose_field` raises, with the key it could not find. */
  datatype FieldError = KeyError(key: string)

  /** The width every value is padded to: `f"{v:<20}"`. */
  const SegmentWidth: nat := 20

  /** The string between segments: `"-".join(...)`. */
  const SegmentSeparator: char := '-'

  /** `row[x]` and, when that is truthy, `row[x]['value']` can be read. */
  predicate Readable(row: Row, x: string)
  {
    x in row && !row[x].NoValue?
  }

  /** The error reading attribute `x` raises: `row[x]` names the attribute
      when the row lacks it; otherwise `row[x]['value']` names "value". */
  function Failure(row: Row, x: string): (e: FieldError)
    requires !Readable(row, x)
    ensures x !in row ==> e == KeyError(x)
    ensures x in row ==> e == KeyError("value")
  {
    if x !in row then KeyError(x) else KeyError("value")
  }

  /** The text an attribute contributes before padding: its value, or "" when falsy. */
  function Text(a: Attribute): string
    requires !a.NoValue?
  {
    if a.Valued? then a.value else ""
  }

  /** `f"{(row[x]['value'] if row[x] else ''):<20}"`. */
  function Segment(a: Attribute): (s: string)
    requires !a.NoValue?
    ensures |s| == if |Text(a)| < SegmentWidth then SegmentWidth else |Text(a)|
    ensures s[..|Text(a)|] == Text(a)
    ensures forall i :: |Text(a)| <= i < |s| ==> s[i] == ' '
  {
    LeftJustify(Text(a), SegmentWidth)
  }

  /** The list comprehension over `fields`, evaluated left to right: the
      first unreadable attribute raises. */
  function Segments(row: Row, fields: seq<string>): (r: Result<seq<string>, FieldError>)
    ensures r.Ok? <==> forall i :: 0 <= i < |fields| ==> Readable(row, fields[i])
    ensures r.Ok? ==> |r.value| == |fields|
    ensures r.Ok? ==> forall i :: 0 <= i < |fields| ==> r.value[i] == Segment(row[fields[i]])
  {
    if |fields| == 0 then Ok([])
    else if !Readable(row, fields[0]) then Err(Failure(row, fields[0]))
    else
      match Segments(row, fields[1..])
      case Err(e) => Err(e)
      case Ok(rest) => Ok([Segment(row[fields[0]])] + rest)
  }

  /** The position of the first field of `row` that cannot be read, or
      |fields| when all of them can. */
  function FirstUnreadable(row: Row, fields: seq<string>): (i: nat)
    ensures i <= |fields|
    ensures i < |fields| ==> !Readable(row, fields[i])
    ensures forall j :: 0 <= j < i ==> Readable(row, fields[j])
  {
    if |fields| == 0 || !Readable(row, fields[0]) then 0
    else 1 + FirstUnreadable(row, fields[1..])
  }

  /** When some attribute cannot be read, the error is the one the first
      unreadable attribute raises. */
  lemma {:induction false} SegmentsFirstError(row: Row, fields: seq<string>)
    requires Segments(row, fields).Err?
    ensures FirstUnreadable(row, fields) < |fields|
    ensures Segments(row, fields).error == Failure(row, fields[FirstUnreadable(row, fields)])
  {
    if Readable(row, fields[0]) {
      SegmentsFirstError(row, fields[1..]);
    }
  }

  /** The token one row becomes: the segments joined by "-", or the error
      of the first unreadable field. */
  function ComposeRow(row: Row, fields: seq<string>): (r: Result<string, FieldError>)
    ensures r.Ok? <==> forall i :: 0 <= i < |fields| ==> Readable(row, fields[i])
  {
    match Segments(row, fields)
    case Err(e) => Err(e)
    case Ok(segments) => Ok(Join(segments, [SegmentSeparator]))
  }

  /** A row fails with the error of its first unreadable field. */
  lemma ComposeRowError(row: Row, fields: seq<string>)
    requires ComposeRow(row, fields).Err?
    ensures FirstUnreadable(row, fields) < |fields|
    ensures ComposeRow(row, fields).error == Failure(row, fields[FirstUnreadable(row, fields)])
  {
    SegmentsFirstError(row, fields);
  }

  /** A token is as long as its segments together plus one separator
      between neighbours; no fields give the empty token. */
  lemma ComposeRowLength(row: Row, fields: seq<string>)
    requires ComposeRow(row, fields).Ok?
    ensures |fields| == 0 ==> ComposeRow(row, fields).value == ""
    ensures |fields| >= 1 ==> |ComposeRow(row, fields).value| == TotalLength(Segments(row, fields).value) + |fields| - 1
  {
    var segs := Segments(row, fields).value;
    assert ComposeRow(row, fields).value == Join(segs, [SegmentSeparator]);
    if |fields| >= 1 {
      JoinTotalLength(segs, [SegmentSeparator]);
    }
  }

  /** Where field k lands in the token, for values of any length: its
      segment starts at its offset, the segments before it each followed by
      "-". */
  lemma ComposeRowLayout(row: Row, fields: seq<string>, k: nat)
    requires ComposeRow(row, fields).Ok? && k < |fields|
    ensures RowSlot(row, fields, k) + |Segment(row[fields[k]])| <= |ComposeRow(row, fields).value|
    ensures ComposeRow(row, fields).value[RowSlot(row, fields, k)..RowSlot(row, fields, k) + |Segment(row[fields[k]])|]
              == Segment(row[fields[k]])
  {
    var segs := Segments(row, fields).value;
    assert ComposeRow(row, fields).value == Join(segs, [SegmentSeparator]);
    var token, at, seg := ComposeRow(row, fields).value, RowSlot(row, fields, k), Segment(row[fields[k]]);
    PartAt(token, segs, SegmentSeparator, k, at, seg);
    assert token[at..at + |seg|] == seg;
  }

  /** A "-" follows the segment of every field but the last. */
  lemma ComposeRowSeparator(row: Row, fields: seq<string>, k: nat)
    requires ComposeRow(row, fields).Ok? && k + 1 < |fields|
    ensures RowSlot(row, fields, k) + |Segment(row[fields[k]])| < |ComposeRow(row, fields).value|
    ensures ComposeRow(row, fields).value[RowSlot(row, fields, k) + |Segment(row[fields[k]])|] == SegmentSeparator
  {
    var segs := Segments(row, fields).value;
    assert ComposeRow(row, fields).value == Join(segs, [SegmentSeparator]);
    assert segs[k] == Segment(row[fields[k]]);
    SeparatorAfter(ComposeRow(row, fields).value, segs, SegmentSeparator, k, RowSlot(row, fields, k) + |Segment(row[fields[k]])|);
  }

  /** Where the segment of field k starts in the token: the segments before
      it, each followed by "-". */
  function RowSlot(row: Row, fields: seq<string>, k: nat): nat
    requires Segments(row, fields).Ok? && k <= |fields|
  {
    Offset(Segments(row, fields).value, k)
  }

  /** `compose_field(rows)`: one token per row, or the first row's error. */
  function ComposeField(rows: seq<Row>, fields: seq<string>): (r: Result<seq<string>, FieldError>)
    ensures r.Ok? <==> forall k :: 0 <= k < |rows| ==> ComposeRow(rows[k], fields).Ok?
    ensures r.Ok? ==> |r.value| == |rows|
    ensures r.Ok? ==> forall k :: 0 <= k < |rows| ==> r.value[k] == ComposeRow(rows[k], fields).value
  {
    if |rows| == 0 then Ok([])
    else
      assert forall j :: 0 <= j < |rows| - 1 ==> rows[1..][j] == rows[j + 1];
      match ComposeRow(rows[0], fields)
      case Err(e) => Err(e)
      case Ok(token) =>
        match ComposeField(rows[1..], fields)
        case Err(e) => Err(e)
        case Ok(tokens) => Ok([token] + tokens)
  }

  /** The position of the first row that cannot be composed, or |rows|
      when all of them can. */
  function FirstFailingRow(rows: seq<Row>, fields: seq<string>): (k: nat)
    ensures k <= |rows|
    ensures k < |rows| ==> ComposeRow(rows[k], fields).Err?
    ensures forall j :: 0 <= j < k ==> ComposeRow(rows[j], fields).Ok?
  {
    if |rows| == 0 || ComposeRow(rows[0], fields).Err? then 0
    else
      var k := FirstFailingRow(rows[1..], fields);
      assert forall j :: 0 <= j < |rows| - 1 ==> rows[1..][j] == rows[j + 1];
      1 + k
  }

  /** When some row fails, the error is that of the first failing row. */
  lemma {:induction false} ComposeFieldFirstError(rows: seq<Row>, fields: seq<string>)
    requires ComposeField(rows, fields).Err?
    ensures FirstFailingRow(rows, fields) < |rows|
    ensures ComposeField(rows, fields).error == ComposeRow(rows[FirstFailingRow(rows, fields)], fields).error
  {
    if ComposeRow(rows[0], fields).Ok? {
      ComposeFieldFirstError(rows[1..], fields);
    }
  }

  /** Every value of at most 20 characters fills exactly one 20-character
      column: the token of n fields is 21 * n - 1 characters long and field
      k sits, padded, at position 21 * k, followed by "-" unless it is last. */
  lemma FixedWidthLayout(row: Row, fields: seq<string>, k: nat)
    requires ComposeRow(row, fields).Ok?
    requires forall i :: 0 <= i < |fields| ==> |Text(row[fields[i]])| <= SegmentWidth
    requires k < |fields|
    ensures |ComposeRow(row, fields).value| == (SegmentWidth + 1) * |fields| - 1
    ensures ComposeRow(row, fields).value[(SegmentWidth + 1) * k..(SegmentWidth + 1) * k + SegmentWidth]
              == Segment(row[fields[k]])
    ensures k + 1 < |fields| ==>
              && (SegmentWidth + 1) * k + SegmentWidth < |ComposeRow(row, fields).value|
              && ComposeRow(row, fields).value[(SegmentWidth + 1) * k + SegmentWidth] == SegmentSeparator
  {
    var segments := Segments(row, fields).value;
    assert ComposeRow(row, fields).value == Join(segments, [SegmentSeparator]);
    assert forall i :: 0 <= i < |segments| ==> |segments[i]| == SegmentWidth;
    UniformJoinLength(segments, SegmentWidth, SegmentSeparator);
    UniformJoinColumn(segments, SegmentWidth, SegmentSeparator, k);
    assert segments[k] == Segment(row[fields[k]]);
  }

  /** `s.rstrip(' ')`. */
  function StripTrailing(s: string): (r: string)
    ensures |r| <= |s| && r == s[..|r|]
    ensures forall i :: |r| <= i < |s| ==> s[i] == ' '
    ensures |r| == 0 || r[|r| - 1] != ' '
  {
    if |s| == 0 || s[|s| - 1] != ' ' then s else StripTrailing(s[..|s| - 1])
  }

  /** Padding is undone by stripping trailing spaces, as long as the value
      does not itself end in a space: the segment determines the value. */
  lemma {:induction false} StripSegment(a: Attribute)
    requires !a.NoValue?
    requires |Text(a)| == 0 || Text(a)[|Text(a)| - 1] != ' '
    ensures StripTrailing(Segment(a)) == Text(a)
  {
    StripPadding(Text(a), Segment(a));
  }

  /** Stripping a string that is `v` followed by spaces gives back `v`. */
  lemma {:induction false} StripPadding(v: string, s: string)
    requires |v| <= |s| && s[..|v|] == v
    requires forall i :: |v| <= i < |s| ==> s[i] == ' '
    requires |v| == 0 || v[|v| - 1] != ' '
    ensures StripTrailing(s) == v
    decreases |s|
  {
    if |s| > |v| {
      StripPadding(v, s[..|s| - 1]);
    } else {
      assert s == v;
    }
  }

  /** With values of at most 20 characters that do not end in a space, every
      value can be read back from its column of the token. */
  lemma ColumnsRecoverValues(row: Row, fields: seq<string>, k: nat)
    requires ComposeRow(row, fields).Ok?
    requires forall i :: 0 <= i < |fields| ==> |Text(row[fields[i]])| <= SegmentWidth
    requires forall i :: 0 <= i < |fields| ==>
               var t := Text(row[fields[i]]); |t| == 0 || t[|t| - 1] != ' '
    requires k < |fields|
    ensures (SegmentWidth + 1) * k + SegmentWidth <= |ComposeRow(row, fields).value|
    ensures var token := ComposeRow(row, fields).value;
            StripTrailing(token[(SegmentWidth + 1) * k..(SegmentWidth + 1) * k + SegmentWidth])
              == Text(row[fields[k]])
  {
    FixedWidthLayout(row, fields, k);
    StripSegment(row[fields[k]]);
  }
}
