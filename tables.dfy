/** The tables the viewer holds and shows: the frame built from the
    normalised rows, and the display copy `display_table` makes of a frame
    before rendering it, with the message column flattened to one line and,
    unless the full message is asked for, cut to 20 characters. */
module Tables {
  import opened Wrappers
  import opened Text
  import opened Broker
  import opened Normalizer

  const IdColumn: string := "id"
  const SequenceNumColumn: string := "sequence_num"
  const MessageIdColumn: string := "message_id"
  const MessageColumn: string := "message"
  const EnqueuedTimeColumn: string := "enqueued_time_utc"
  const DeadLetterReasonColumn: string := "dead_letter_reason"
  const DeadLetterErrorDescriptionColumn: string := "dead_letter_error_description"

  /** The length the message column is cut to unless the full message is shown. */
  const DisplayWidth: nat := 20

  /** One value in a table: a number, a text, a timestamp or a missing value. */
  datatype Cell = Int(i: int) | Str(s: string) | Time(t: Timestamp) | Null

  /** A frame: its column names in order and its rows by column name. */
  datatype Table = Table(columns: seq<string>, rows: seq<map<string, Cell>>)

  /** Every row has a value in every column. */
  predicate WellFormed(t: Table) {
    forall i, c :: 0 <= i < |t.rows| && c in t.columns ==> c in t.rows[i]
  }

  /** `DataFrame.empty`: no columns or no rows. */
  predicate IsEmpty(t: Table) {
    t.columns == [] || t.rows == []
  }

  /** `pd.DataFrame()`. */
  const EmptyTable: Table := Table([], [])

  /** The columns of a frame built from rows, with or without the dead-letter
      columns. */
  function RowColumns(deadLetter: bool): (cols: seq<string>)
    ensures MessageIdColumn in cols && MessageColumn in cols
    ensures DeadLetterReasonColumn in cols <==> deadLetter
    ensures DeadLetterErrorDescriptionColumn in cols <==> deadLetter
  {
    [IdColumn, SequenceNumColumn, MessageIdColumn, MessageColumn, EnqueuedTimeColumn]
      + if deadLetter then [DeadLetterReasonColumn, DeadLetterErrorDescriptionColumn] else []
  }

  /** The cells of one `msg_object`. */
  function RowCells(r: Row): (cells: map<string, Cell>)
    ensures cells.Keys == {IdColumn, SequenceNumColumn, MessageIdColumn, MessageColumn, EnqueuedTimeColumn}
              + (if r.deadLetter.Some? then {DeadLetterReasonColumn, DeadLetterErrorDescriptionColumn} else {})
    ensures cells[IdColumn] == Int(r.id)
    ensures cells[SequenceNumColumn] == Str(r.sequenceNum)
    ensures cells[MessageIdColumn] == Str(r.messageId)
    ensures cells[MessageColumn] == Str(r.message)
    ensures cells[EnqueuedTimeColumn] == if r.enqueuedTimeUtc.Some? then Time(r.enqueuedTimeUtc.value) else Null
    ensures r.deadLetter.Some? ==>
              && cells[DeadLetterReasonColumn] == Str(r.deadLetter.value.reason)
              && cells[DeadLetterErrorDescriptionColumn] == Str(r.deadLetter.value.errorDescription)
  {
    var base := map[
      IdColumn := Int(r.id),
      SequenceNumColumn := Str(r.sequenceNum),
      MessageIdColumn := Str(r.messageId),
      MessageColumn := Str(r.message),
      EnqueuedTimeColumn := if r.enqueuedTimeUtc.Some? then Time(r.enqueuedTimeUtc.value) else Null];
    match r.deadLetter
    case None => base
    case Some(info) =>
      base[DeadLetterReasonColumn := Str(info.reason)][DeadLetterErrorDescriptionColumn := Str(info.errorDescription)]
  }

  /** `pd.DataFrame(messages_data)` for rows that all carry the dead-letter
      columns exactly when `deadLetter` holds: no rows give the column-less
      empty frame. */
  function FromRows(rows: seq<Row>, deadLetter: bool): (t: Table)
    requires forall i :: 0 <= i < |rows| ==> (rows[i].deadLetter.Some? <==> deadLetter)
    ensures WellFormed(t)
    ensures |t.rows| == |rows|
    ensures IsEmpty(t) <==> rows == []
    ensures rows != [] ==> t.columns == RowColumns(deadLetter)
    ensures forall i :: 0 <= i < |rows| ==> t.rows[i] == RowCells(rows[i])
  {
    if rows == [] then EmptyTable
    else Table(RowColumns(deadLetter), seq(|rows|, i requires 0 <= i < |rows| => RowCells(rows[i])))
  }

  /** `astype(str)` on one value: text as it is, a number as its decimal
      numeral, a missing value as `None`. */
  function AsText(c: Cell): (r: string)
    ensures c.Str? ==> r == c.s
    ensures c.Int? ==> r != [] && (c.i >= 0 ==> Canonical(r) && DecimalValue(r) == c.i)
    ensures c.Int? && c.i < 0 ==> r[0] == '-' && Canonical(r[1..]) && DecimalValue(r[1..]) == -c.i
    ensures c.Time? ==> r == c.t.text
    ensures c.Null? ==> r == "None"
  {
    match c
    case Int(i) => IntToDecimal(i)
    case Str(s) => s
    case Time(t) => t.text
    case Null => "None"
  }

  /** `.str.slice(0, 20)` unless the full message is shown. */
  function Truncate(s: string, full: bool): (r: string)
    ensures r <= s
    ensures full ==> r == s
    ensures !full ==> |r| == if |s| < DisplayWidth then |s| else DisplayWidth
  {
    if full || |s| <= DisplayWidth then s else s[..DisplayWidth]
  }

  /** How `display_table` rewrites a column: to text, or to text with line
      breaks turned into spaces and possibly truncated. */
  datatype Conversion = ToText | ToMessage(full: bool)

  function Convert(c: Cell, conv: Conversion): (r: Cell)
    ensures r.Str?
    ensures conv.ToText? ==> r.s == AsText(c)
    ensures conv.ToMessage? ==> '\n' !in r.s && r.s <= ReplaceChar(AsText(c), '\n', ' ')
    ensures conv.ToMessage? && !conv.full ==> |r.s| <= DisplayWidth
    ensures conv.ToMessage? && conv.full ==> r.s == ReplaceChar(AsText(c), '\n', ' ')
    ensures conv.ToMessage? ==> r.s == Truncate(ReplaceChar(AsText(c), '\n', ' '), conv.full)
  {
    match conv
    case ToText => Str(AsText(c))
    case ToMessage(full) =>
      var flat := ReplaceChar(AsText(c), '\n', ' ');
      ReplaceRemoves(AsText(c), '\n', ' ');
      Str(Truncate(flat, full))
  }

  /** `display_df[col] = display_df[col]...` on one column. */
  function ConvertColumn(t: Table, col: string, conv: Conversion): (r: Table)
    ensures r.columns == t.columns && |r.rows| == |t.rows|
    ensures forall i :: 0 <= i < |t.rows| ==> r.rows[i].Keys == t.rows[i].Keys
    ensures forall i :: 0 <= i < |t.rows| && col in t.rows[i] ==> r.rows[i][col] == Convert(t.rows[i][col], conv)
    ensures forall i, c :: 0 <= i < |t.rows| && c in t.rows[i] && c != col ==> r.rows[i][c] == t.rows[i][c]
  {
    Table(t.columns, seq(|t.rows|, i requires 0 <= i < |t.rows| =>
      if col in t.rows[i] then t.rows[i][col := Convert(t.rows[i][col], conv)] else t.rows[i]))
  }

  /** The columns `display_table` reads, in the order it reads them. */
  function DisplayedColumns(deadLetter: bool): seq<string> {
    [MessageIdColumn, MessageColumn]
      + if deadLetter then [DeadLetterReasonColumn, DeadLetterErrorDescriptionColumn] else []
  }

  /** The first of `cols` the table lacks, if any. */
  function FirstMissing(t: Table, cols: seq<string>): (r: Option<string>)
    ensures r.None? <==> forall c :: c in cols ==> c in t.columns
    ensures r.Some? ==> r.value in cols && r.value !in t.columns
  {
    if cols == [] then None
    else if cols[0] !in t.columns then Some(cols[0])
    else FirstMissing(t, cols[1..])
  }

  /** The copy `display_table` renders. A non-empty frame without one of the
      columns it rewrites fails on the first such column (pandas raises a
      `KeyError`); an empty frame is copied unchanged. */
  function DisplayCopy(t: Table, fullMessage: bool, deadLetter: bool): (r: Result<Table, string>)
    ensures r.Failure? <==> !IsEmpty(t) && FirstMissing(t, DisplayedColumns(deadLetter)).Some?
    ensures r.Failure? ==> r.error in DisplayedColumns(deadLetter) && r.error !in t.columns
    ensures r.Success? ==> r.value.columns == t.columns && |r.value.rows| == |t.rows|
    ensures r.Success? ==> forall i :: 0 <= i < |t.rows| ==> r.value.rows[i].Keys == t.rows[i].Keys
    ensures r.Success? ==>
              forall i, c :: 0 <= i < |t.rows| && c in t.rows[i] && c !in DisplayedColumns(deadLetter) ==>
                c in r.value.rows[i] && r.value.rows[i][c] == t.rows[i][c]
  {
    if IsEmpty(t) then Success(t)
    else
      match FirstMissing(t, DisplayedColumns(deadLetter))
      case Some(col) => Failure(col)
      case None =>
        var t1 := ConvertColumn(t, MessageIdColumn, ToText);
        var t2 := ConvertColumn(t1, MessageColumn, ToMessage(fullMessage));
        Success(
          if deadLetter then
            ConvertColumn(ConvertColumn(t2, DeadLetterReasonColumn, ToText), DeadLetterErrorDescriptionColumn, ToText)
          else t2)
  }

  /** Each displayed message is its original text on one line, cut to 20
      characters unless the full message is shown. */
  lemma DisplayedMessage(t: Table, fullMessage: bool, deadLetter: bool, i: nat)
    requires WellFormed(t) && DisplayCopy(t, fullMessage, deadLetter).Success? && !IsEmpty(t)
    requires i < |t.rows|
    ensures MessageColumn in DisplayCopy(t, fullMessage, deadLetter).value.rows[i]
    ensures var shown := DisplayCopy(t, fullMessage, deadLetter).value.rows[i][MessageColumn];
            var flat := ReplaceChar(AsText(t.rows[i][MessageColumn]), '\n', ' ');
            && shown == Str(Truncate(flat, fullMessage))
            && '\n' !in shown.s
            && shown.s <= flat
            && (fullMessage ==> shown.s == flat)
            && (!fullMessage ==> |shown.s| == if |flat| < DisplayWidth then |flat| else DisplayWidth)
  {
    assert MessageColumn in t.columns;
    var t1 := ConvertColumn(t, MessageIdColumn, ToText);
    var t2 := ConvertColumn(t1, MessageColumn, ToMessage(fullMessage));
    assert t1.rows[i][MessageColumn] == t.rows[i][MessageColumn];
    assert t2.rows[i][MessageColumn] == Convert(t.rows[i][MessageColumn], ToMessage(fullMessage));
  }

  /** `message_id` is displayed as its `astype(str)` text, and so are the
      two dead-letter columns when the dead-letter type is selected. */
  lemma DisplayedTextColumns(t: Table, fullMessage: bool, deadLetter: bool, i: nat)
    requires DisplayCopy(t, fullMessage, deadLetter).Success? && !IsEmpty(t)
    requires i < |t.rows|
    ensures var shown := DisplayCopy(t, fullMessage, deadLetter).value.rows[i];
            MessageIdColumn in t.rows[i] ==>
              MessageIdColumn in shown && shown[MessageIdColumn] == Str(AsText(t.rows[i][MessageIdColumn]))
    ensures var shown := DisplayCopy(t, fullMessage, deadLetter).value.rows[i];
            deadLetter && DeadLetterReasonColumn in t.rows[i] ==>
              DeadLetterReasonColumn in shown && shown[DeadLetterReasonColumn] == Str(AsText(t.rows[i][DeadLetterReasonColumn]))
    ensures var shown := DisplayCopy(t, fullMessage, deadLetter).value.rows[i];
            deadLetter && DeadLetterErrorDescriptionColumn in t.rows[i] ==>
              && DeadLetterErrorDescriptionColumn in shown
              && shown[DeadLetterErrorDescriptionColumn] == Str(AsText(t.rows[i][DeadLetterErrorDescriptionColumn]))
  {
    var t1 := ConvertColumn(t, MessageIdColumn, ToText);
    var t2 := ConvertColumn(t1, MessageColumn, ToMessage(fullMessage));
    if deadLetter {
      var t3 := ConvertColumn(t2, DeadLetterReasonColumn, ToText);
      var t4 := ConvertColumn(t3, DeadLetterErrorDescriptionColumn, ToText);
      assert DisplayCopy(t, fullMessage, deadLetter).value == t4;
      if DeadLetterReasonColumn in t.rows[i] {
        assert t2.rows[i][DeadLetterReasonColumn] == t1.rows[i][DeadLetterReasonColumn] == t.rows[i][DeadLetterReasonColumn];
        assert t4.rows[i][DeadLetterReasonColumn] == t3.rows[i][DeadLetterReasonColumn];
      }
      if DeadLetterErrorDescriptionColumn in t.rows[i] {
        assert t3.rows[i][DeadLetterErrorDescriptionColumn] == t.rows[i][DeadLetterErrorDescriptionColumn];
      }
      if MessageIdColumn in t.rows[i] {
        assert t4.rows[i][MessageIdColumn] == t1.rows[i][MessageIdColumn];
      }
    } else {
      assert DisplayCopy(t, fullMessage, deadLetter).value == t2;
    }
  }

  /** Row `i` of the frame kept after a load holds message `i`'s values: id
      `i + 1`, its sequence-number text, its message id (or `""`), its
      cleaned body, its enqueue time (or a missing value) and, for the
      dead-letter queue only, its two dead-letter properties (or `""`). */
  lemma LoadedRow(ms: seq<RawMessage>, deadLetter: bool, i: nat)
    requires i < |ms|
    ensures var row := FromRows(Normalized(ms, deadLetter), deadLetter).rows[i];
            var m := ms[i];
            && row.Keys == {IdColumn, SequenceNumColumn, MessageIdColumn, MessageColumn, EnqueuedTimeColumn}
                              + (if deadLetter then {DeadLetterReasonColumn, DeadLetterErrorDescriptionColumn} else {})
            && row[IdColumn] == Int(i + 1)
            && row[SequenceNumColumn] == Str(SequenceNumText(m.sequenceNumber))
            && row[MessageIdColumn] == Str(if m.messageId.Some? then m.messageId.value else "")
            && row[MessageColumn] == Str(CleanText(m.body))
            && row[EnqueuedTimeColumn] == (if m.enqueuedTimeUtc.Some? then Time(m.enqueuedTimeUtc.value) else Null)
            && (deadLetter ==>
                  && row[DeadLetterReasonColumn] == Str(PropertyText(m.applicationProperties, DeadLetterReasonKey))
                  && row[DeadLetterErrorDescriptionColumn] == Str(PropertyText(m.applicationProperties, DeadLetterErrorDescriptionKey)))
  {
    var r := NormalizeMessage(ms[i], i + 1, deadLetter);
    assert Normalized(ms, deadLetter)[i] == r;
  }

  /** A frame built from rows has every column `display_table` reads for the
      same queue type. */
  lemma LoadedColumns(ms: seq<RawMessage>, deadLetter: bool)
    requires ms != []
    ensures FirstMissing(FromRows(Normalized(ms, deadLetter), deadLetter), DisplayedColumns(deadLetter)).None?
  {
  }

  /** A message cell holding text without line feeds is displayed as that
      text, truncated unless the full message is shown. */
  lemma DisplayedCleanMessage(t: Table, fullMessage: bool, deadLetter: bool, i: nat, body: string)
    requires WellFormed(t) && DisplayCopy(t, fullMessage, deadLetter).Success? && !IsEmpty(t)
    requires i < |t.rows| && MessageColumn in t.rows[i] && t.rows[i][MessageColumn] == Str(body) && '\n' !in body
    ensures MessageColumn in DisplayCopy(t, fullMessage, deadLetter).value.rows[i]
    ensures DisplayCopy(t, fullMessage, deadLetter).value.rows[i][MessageColumn] == Str(Truncate(body, fullMessage))
  {
    DisplayedMessage(t, fullMessage, deadLetter, i);
    ReplaceRemoves(body, '\n', ' ');
  }

  /** One displayed row of a freshly built frame shows its message's cleaned
      body, cut to 20 characters unless the full message is shown. */
  lemma LoadedRowDisplays(ms: seq<RawMessage>, deadLetter: bool, fullMessage: bool, i: nat)
    requires i < |ms|
    requires DisplayCopy(FromRows(Normalized(ms, deadLetter), deadLetter), fullMessage, deadLetter).Success?
    ensures var shown := DisplayCopy(FromRows(Normalized(ms, deadLetter), deadLetter), fullMessage, deadLetter).value.rows[i];
            MessageColumn in shown && shown[MessageColumn] == Str(Truncate(CleanText(ms[i].body), fullMessage))
  {
    LoadedRow(ms, deadLetter, i);
    DisplayedCleanMessage(FromRows(Normalized(ms, deadLetter), deadLetter), fullMessage, deadLetter, i, CleanText(ms[i].body));
  }

  /** A frame freshly built from normalised rows always displays when the
      queue type is unchanged, and each row shows its message's cleaned body,
      cut to 20 characters unless the full message is shown. */
  lemma LoadedTableDisplays(ms: seq<RawMessage>, deadLetter: bool, fullMessage: bool)
    ensures var t := FromRows(Normalized(ms, deadLetter), deadLetter);
            DisplayCopy(t, fullMessage, deadLetter).Success?
    ensures var t := FromRows(Normalized(ms, deadLetter), deadLetter);
            forall i :: 0 <= i < |ms| ==>
              var shown := DisplayCopy(t, fullMessage, deadLetter).value.rows[i];
              MessageColumn in shown && shown[MessageColumn] == Str(Truncate(CleanText(ms[i].body), fullMessage))
  {
    if ms != [] {
      LoadedColumns(ms, deadLetter);
      forall i | 0 <= i < |ms|
        ensures var shown := DisplayCopy(FromRows(Normalized(ms, deadLetter), deadLetter), fullMessage, deadLetter).value.rows[i];
                MessageColumn in shown && shown[MessageColumn] == Str(Truncate(CleanText(ms[i].body), fullMessage))
      {
        LoadedRowDisplays(ms, deadLetter, fullMessage, i);
      }
    }
  }

  /** A frame loaded from the queue itself, displayed while the dead-letter
      type is selected, fails on the missing `dead_letter_reason` column. */
  lemma NormalFrameAsDeadLetterFails(ms: seq<RawMessage>, fullMessage: bool)
    requires ms != []
    ensures DisplayCopy(FromRows(Normalized(ms, false), false), fullMessage, true) == Failure(DeadLetterReasonColumn)
  {
    var t := FromRows(Normalized(ms, false), false);
    var cols := DisplayedColumns(true);
    assert cols == [MessageIdColumn, MessageColumn, DeadLetterReasonColumn, DeadLetterErrorDescriptionColumn];
    assert cols[1..][1..][0] == DeadLetterReasonColumn && DeadLetterReasonColumn !in t.columns;
    assert FirstMissing(t, cols) == FirstMissing(t, cols[1..]) == FirstMissing(t, cols[1..][1..]);
  }
}
