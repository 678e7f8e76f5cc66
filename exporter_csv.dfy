/**
 * Writing a list of records as CSV (exporter_csv.go). Go's reflection over
 * struct fields is replaced by an explicit list of tagged field values;
 * RFC 3339 time formatting is the parameter `formatTime`.
 */
module CsvExport {
  import opened Wrappers
  import opened Forum
  import opened Metrics
  import opened Decimal

  /** A struct field's value, by the reflect kind the exporter switches on. */
  datatype FieldValue =
    | StringValue(s: string)
    | IntValue(i: int)            // any of Go's signed integer kinds
    | BoolValue(b: bool)
    | TimeValue(t: Timestamp)     // a struct field of type time.Time
    | OtherStruct                 // any other struct type
    | OtherKind                   // any other kind (floats, slices, pointers, ...)

  /** A struct field: its `csv` tag and its value. */
  datatype Field = Field(tag: string, value: FieldValue)

  /** One record, its fields in declaration order. */
  type Record = seq<Field>

  /** The kind of a field, ignoring its value. */
  function KindOf(v: FieldValue): int
  {
    match v
    case StringValue(_) => 0
    case IntValue(_) => 1
    case BoolValue(_) => 2
    case TimeValue(_) => 3
    case OtherStruct => 4
    case OtherKind => 5
  }

  /** All records share one struct type: the same tags and kinds in the same order. */
  predicate SameType(dataSet: seq<Record>)
  {
    && (forall i :: 0 <= i < |dataSet| ==> |dataSet[i]| == |dataSet[0]|)
    && (forall i, k :: 0 <= i < |dataSet| && 0 <= k < |dataSet[i]| && k < |dataSet[0]| ==>
          dataSet[i][k].tag == dataSet[0][k].tag && KindOf(dataSet[i][k].value) == KindOf(dataSet[0][k].value))
  }

  /** Reads a bool cell back. */
  function ParseBool(s: string): Option<bool>
  {
    if s == "true" then Some(true) else if s == "false" then Some(false) else None
  }

  /** The cell for one field value. */
  function FormatCell(v: FieldValue, formatTime: Timestamp -> string): (cell: string)
    ensures v.StringValue? ==> cell == v.s
    ensures v.IntValue? ==> cell == FormatInt(v.i) && ParseInt(cell) == Some(v.i)
    ensures v.BoolValue? ==> (cell == "true" <==> v.b) && (cell == "false" <==> !v.b)
    ensures v.TimeValue? ==> cell == formatTime(v.t)
    ensures v.OtherStruct? || v.OtherKind? ==> cell == ""
  {
    match v
    case StringValue(s) => s
    case IntValue(i) => FormatIntRoundTrip(i); FormatInt(i)
    case BoolValue(b) => if b then "true" else "false"
    case TimeValue(t) => formatTime(t)
    case OtherStruct => ""
    case OtherKind => ""
  }

  /** The header row: one column per field, carrying the field's `csv` tag. */
  function Header(rec: Record): (header: seq<string>)
    ensures |header| == |rec|
    ensures forall k :: 0 <= k < |rec| ==> header[k] == rec[k].tag
  {
    seq(|rec|, k requires 0 <= k < |rec| => rec[k].tag)
  }

  /**
   * The data row: as wide as the header, one cell per field. A string or
   * a time is written as is (the time through RFC 3339), an integer and a
   * bool so that they read back, and any other kind as an empty cell.
   */
  function Row(rec: Record, formatTime: Timestamp -> string): (row: seq<string>)
    ensures |row| == |Header(rec)|
    ensures forall k :: 0 <= k < |rec| && rec[k].value.IntValue? ==>
              row[k] == FormatInt(rec[k].value.i) && ParseInt(row[k]) == Some(rec[k].value.i)
    ensures forall k :: 0 <= k < |rec| && rec[k].value.BoolValue? ==> ParseBool(row[k]) == Some(rec[k].value.b)
    ensures forall k :: 0 <= k < |rec| && rec[k].value.StringValue? ==> row[k] == rec[k].value.s
    ensures forall k :: 0 <= k < |rec| && rec[k].value.TimeValue? ==> row[k] == formatTime(rec[k].value.t)
    ensures forall k :: 0 <= k < |rec| && (rec[k].value.OtherStruct? || rec[k].value.OtherKind?) ==> row[k] == ""
  {
    seq(|rec|, k requires 0 <= k < |rec| => FormatCell(rec[k].value, formatTime))
  }

  /** Everything a successful export writes: the header of the first record, then one row per record. */
  function Table(dataSet: seq<Record>, formatTime: Timestamp -> string): seq<seq<string>>
    requires dataSet != []
  {
    [Header(dataSet[0])] + seq(|dataSet|, i requires 0 <= i < |dataSet| => Row(dataSet[i], formatTime))
  }

  /** Rows of one type are all as wide as the header, and each row formats its own record. */
  lemma TableShape(dataSet: seq<Record>, formatTime: Timestamp -> string)
    requires dataSet != [] && SameType(dataSet)
    ensures var table := Table(dataSet, formatTime);
            && |table| == |dataSet| + 1
            && table[0] == Header(dataSet[0])
            && (forall i :: 0 <= i < |dataSet| ==> table[i + 1] == Row(dataSet[i], formatTime))
            && (forall i :: 0 <= i < |table| ==> |table[i]| == |table[0]|)
  {
    var table := Table(dataSet, formatTime);
    forall i | 0 <= i < |table|
      ensures |table[i]| == |table[0]|
    {
      if i > 0 {
        assert table[i] == Row(dataSet[i - 1], formatTime);
      }
    }
  }

  /** What the file creation would return, and how many rows the file accepts before a write fails. */
  datatype FileSink = FileSink(createError: Option<Error>, capacity: nat)

  /** The error a write into a full sink reports. */
  const WriteFailure: Error := External("write")

  /** A CSV writer over a file: the rows it has written so far. */
  class CsvWriter {
    var rows: seq<seq<string>>
    const capacity: nat

    constructor (capacity: nat)
      ensures rows == [] && this.capacity == capacity
    {
      rows := [];
      this.capacity := capacity;
    }

    /** Writes one row; fails, writing nothing, once the sink is full. */
    method Write(row: seq<string>) returns (r: Outcome<Error>)
      modifies this
      ensures |old(rows)| < capacity ==> r == Pass && rows == old(rows) + [row]
      ensures |old(rows)| >= capacity ==> r == Fail(WriteFailure) && rows == old(rows)
    {
      if |rows| < capacity {
        rows := rows + [row];
        r := Pass;
      } else {
        r := Fail(WriteFailure);
      }
    }
  }

  function Min(a: int, b: int): int
  {
    if a < b then a else b
  }

  /** The header loop of exportArrayToCSV: each field's `csv` tag, in field order. */
  method HeaderCells(first: Record) returns (csvHeaders: seq<string>)
    ensures csvHeaders == Header(first)
  {
    csvHeaders := [];
    var k := 0;
    while k < |first|
      invariant 0 <= k <= |first|
      invariant csvHeaders == Header(first)[..k]
    {
      csvHeaders := csvHeaders + [first[k].tag];
      k := k + 1;
    }
  }

  /** The per-entry loop of exportArrayToCSV: each field formatted, in field order. */
  method RowCells(nextEntry: Record, formatTime: Timestamp -> string) returns (nextEntryStrings: seq<string>)
    ensures nextEntryStrings == Row(nextEntry, formatTime)
  {
    nextEntryStrings := [];
    var k := 0;
    while k < |nextEntry|
      invariant 0 <= k <= |nextEntry|
      invariant nextEntryStrings == Row(nextEntry, formatTime)[..k]
    {
      nextEntryStrings := nextEntryStrings + [FormatCell(nextEntry[k].value, formatTime)];
      k := k + 1;
    }
  }

  /**
   * exporter_csv.go, exportArrayToCSV. Returns the outcome and the rows
   * that reached the file: nothing for an empty data set or a failed
   * creation, otherwise the table up to the first failed write.
   */
  method ExportArrayToCsv(dataSet: seq<Record>, sink: FileSink, formatTime: Timestamp -> string)
    returns (r: Outcome<Error>, written: seq<seq<string>>)
    requires SameType(dataSet)
    ensures dataSet == [] ==> r == Pass && written == []
    ensures dataSet != [] && sink.createError.Some? ==> r == Fail(sink.createError.value) && written == []
    ensures dataSet != [] && sink.createError.None? ==>
              && written == Table(dataSet, formatTime)[..Min(|dataSet| + 1, sink.capacity)]
              && (r == Pass <==> sink.capacity >= |dataSet| + 1)
              && (r.Fail? ==> r == Fail(WriteFailure))
  {
    written := [];
    if |dataSet| == 0 {
      return Pass, [];
    }
    if sink.createError.Some? {
      return Fail(sink.createError.value), [];
    }
    var writer := new CsvWriter(sink.capacity);
    ghost var table := Table(dataSet, formatTime);

    var csvHeaders := HeaderCells(dataSet[0]);
    assert csvHeaders == table[0];
    r := writer.Write(csvHeaders);
    if r.Fail? {
      return r, writer.rows;
    }

    var i := 0;
    while i < |dataSet|
      invariant 0 <= i <= |dataSet|
      invariant writer.capacity == sink.capacity
      invariant writer.rows == table[..i + 1] && i + 1 <= writer.capacity
    {
      var nextEntryStrings := RowCells(dataSet[i], formatTime);
      assert nextEntryStrings == table[i + 1];
      r := writer.Write(nextEntryStrings);
      if r.Fail? {
        return r, writer.rows;
      }
      assert table[..i + 2] == table[..i + 1] + [table[i + 1]];
      i := i + 1;
    }
    assert table[..i + 1] == table;
    return Pass, writer.rows;
  }

  /** A UserEntry as a record, fields and tags as declared in metrics.go. */
  function UserRecord(u: UserEntry): (rec: Record)
    ensures Header(rec) == ["User ID", "Username", "Name", "Primary Group Name"]
  {
    [Field("User ID", IntValue(u.userId)), Field("Username", StringValue(u.username)),
     Field("Name", StringValue(u.name)), Field("Primary Group Name", StringValue(u.primaryGroupName))]
  }

  /** A TopicCommentsEntry as a record. */
  function CommentRecord(c: TopicCommentsEntry): (rec: Record)
    ensures Header(rec) == ["Category Slug", "Topic ID", "Post ID", "Creation Time", "Last Update Time",
                            "Creator Username", "Is the topic's main post"]
  {
    [Field("Category Slug", StringValue(c.categorySlug)), Field("Topic ID", IntValue(c.topicId)),
     Field("Post ID", IntValue(c.postId)), Field("Creation Time", TimeValue(c.creationTime)),
     Field("Last Update Time", TimeValue(c.updateTime)), Field("Creator Username", StringValue(c.username)),
     Field("Is the topic's main post", BoolValue(c.isInitialPost))]
  }

  /** A TopicEditsEntry as a record. */
  function EditRecord(e: TopicEditsEntry): (rec: Record)
    ensures Header(rec) == ["Topic ID", "Edit Number", "Creation Time", "Editor Username"]
  {
    [Field("Topic ID", IntValue(e.topicId)), Field("Edit Number", IntValue(e.editNumber)),
     Field("Creation Time", TimeValue(e.creationTime)), Field("Editor Username", StringValue(e.username))]
  }

  /** The users as records, which all share one struct type. */
  function UserRecords(users: seq<UserEntry>): (records: seq<Record>)
    ensures |records| == |users| && forall i :: 0 <= i < |users| ==> records[i] == UserRecord(users[i])
    ensures SameType(records)
  {
    seq(|users|, i requires 0 <= i < |users| => UserRecord(users[i]))
  }

  /** The comments as records, which all share one struct type. */
  function CommentRecords(comments: seq<TopicCommentsEntry>): (records: seq<Record>)
    ensures |records| == |comments| && forall i :: 0 <= i < |comments| ==> records[i] == CommentRecord(comments[i])
    ensures SameType(records)
  {
    seq(|comments|, i requires 0 <= i < |comments| => CommentRecord(comments[i]))
  }

  /** The edits as records, which all share one struct type. */
  function EditRecords(edits: seq<TopicEditsEntry>): (records: seq<Record>)
    ensures |records| == |edits| && forall i :: 0 <= i < |edits| ==> records[i] == EditRecord(edits[i])
    ensures SameType(records)
  {
    seq(|edits|, i requires 0 <= i < |edits| => EditRecord(edits[i]))
  }

  /** Reads a user row back. */
  function DecodeUserRow(row: seq<string>): Option<UserEntry>
  {
    if |row| != 4 then None
    else match ParseInt(row[0])
      case None => None
      case Some(id) => Some(UserEntry(id, row[1], row[2], row[3]))
  }

  /** Reads a comment row back, given a reader for the time format. */
  function DecodeCommentRow(row: seq<string>, parseTime: string -> Option<Timestamp>): Option<TopicCommentsEntry>
  {
    if |row| != 7 then None
    else match (ParseInt(row[1]), ParseInt(row[2]), parseTime(row[3]), parseTime(row[4]), ParseBool(row[6]))
      case (Some(topicId), Some(postId), Some(created), Some(updated), Some(initial)) =>
        Some(TopicCommentsEntry(row[0], topicId, postId, created, updated, row[5], initial))
      case _ => None
  }

  /** Reads an edit row back, given a reader for the time format. */
  function DecodeEditRow(row: seq<string>, parseTime: string -> Option<Timestamp>): Option<TopicEditsEntry>
  {
    if |row| != 4 then None
    else match (ParseInt(row[0]), ParseInt(row[1]), parseTime(row[2]))
      case (Some(topicId), Some(number), Some(created)) => Some(TopicEditsEntry(topicId, number, created, row[3]))
      case _ => None
  }

  /** A user row loses nothing: it reads back as the entry it was written from. */
  lemma UserRowRoundTrip(u: UserEntry, formatTime: Timestamp -> string)
    ensures DecodeUserRow(Row(UserRecord(u), formatTime)) == Some(u)
  {
    var row := Row(UserRecord(u), formatTime);
    assert row[0] == FormatCell(IntValue(u.userId), formatTime);
  }

  /**
   * What a time reads back as after a trip through its cell. RFC 3339 as
   * the exporter writes it has no fractional seconds, so this is the
   * instant truncated to the second, not the instant itself.
   */
  function Reread(t: Timestamp, formatTime: Timestamp -> string, parseTime: string -> Option<Timestamp>): Timestamp
  {
    match parseTime(formatTime(t))
    case Some(u) => u
    case None => t
  }

  /**
   * A comment row reads back as its entry, every field intact except the
   * two times, which read back as their formatted text does; given only
   * that the time reader accepts what the time writer writes. Where that
   * text determines the instant, the entry comes back unchanged.
   */
  lemma CommentRowRoundTrip(c: TopicCommentsEntry, formatTime: Timestamp -> string, parseTime: string -> Option<Timestamp>)
    requires parseTime(formatTime(c.creationTime)).Some? && parseTime(formatTime(c.updateTime)).Some?
    ensures DecodeCommentRow(Row(CommentRecord(c), formatTime), parseTime)
            == Some(c.(creationTime := Reread(c.creationTime, formatTime, parseTime),
                       updateTime := Reread(c.updateTime, formatTime, parseTime)))
    ensures parseTime(formatTime(c.creationTime)) == Some(c.creationTime) && parseTime(formatTime(c.updateTime)) == Some(c.updateTime)
            ==> DecodeCommentRow(Row(CommentRecord(c), formatTime), parseTime) == Some(c)
  {
    var row := Row(CommentRecord(c), formatTime);
    assert CommentRecord(c)[1].value == IntValue(c.topicId);
    assert CommentRecord(c)[2].value == IntValue(c.postId);
    assert CommentRecord(c)[6].value == BoolValue(c.isInitialPost);
    assert row[3] == formatTime(c.creationTime) && row[4] == formatTime(c.updateTime);
  }

  /**
   * An edit row reads back as its entry, every field intact except the
   * time, which reads back as its formatted text does.
   */
  lemma EditRowRoundTrip(e: TopicEditsEntry, formatTime: Timestamp -> string, parseTime: string -> Option<Timestamp>)
    requires parseTime(formatTime(e.creationTime)).Some?
    ensures DecodeEditRow(Row(EditRecord(e), formatTime), parseTime)
            == Some(e.(creationTime := Reread(e.creationTime, formatTime, parseTime)))
    ensures parseTime(formatTime(e.creationTime)) == Some(e.creationTime)
            ==> DecodeEditRow(Row(EditRecord(e), formatTime), parseTime) == Some(e)
  {
    var row := Row(EditRecord(e), formatTime);
    assert EditRecord(e)[0].value == IntValue(e.topicId);
    assert EditRecord(e)[1].value == IntValue(e.editNumber);
    assert row[2] == formatTime(e.creationTime);
  }

  /**
   * exporter_csv.go, ExportUsersCSV: the rows written to users.csv (an
   * error is only logged). With room in the file, the header and then one
   * row per user that reads back as that user; otherwise as many rows as
   * fit.
   */
  method ExportUsersCsv(users: seq<UserEntry>, sink: FileSink, formatTime: Timestamp -> string) returns (written: seq<seq<string>>)
    ensures users != [] && sink.createError.None? && sink.capacity > |users| ==>
              && |written| == |users| + 1 && written[0] == ["User ID", "Username", "Name", "Primary Group Name"]
              && (forall i :: 0 <= i < |users| ==> written[i + 1] == Row(UserRecord(users[i]), formatTime))
              && (forall i :: 0 <= i < |users| ==> DecodeUserRow(written[i + 1]) == Some(users[i]))
    ensures users != [] && sink.createError.None? && sink.capacity <= |users| ==>
              && |written| == sink.capacity
              && (sink.capacity > 0 ==> written[0] == Header(UserRecord(users[0])))
              && (forall i :: 0 < i < |written| ==> written[i] == Row(UserRecord(users[i - 1]), formatTime))
    ensures users == [] || sink.createError.Some? ==> written == []
  {
    var records := UserRecords(users);
    var r;
    r, written := ExportArrayToCsv(records, sink, formatTime);
    if users != [] && sink.createError.None? {
      TableShape(records, formatTime);
      ghost var table := Table(records, formatTime);
      forall i | 0 <= i < |users|
        ensures table[i + 1] == Row(UserRecord(users[i]), formatTime)
      {
        assert records[i] == UserRecord(users[i]);
      }
      if sink.capacity > |users| {
        assert written == table;
        forall i | 0 <= i < |users|
          ensures DecodeUserRow(written[i + 1]) == Some(users[i])
        {
          UserRowRoundTrip(users[i], formatTime);
        }
      } else {
        assert written == table[..sink.capacity];
      }
    }
  }

  /** Every row of a written comment file reads back as its comment does. */
  lemma CommentRowsRead(comments: seq<TopicCommentsEntry>, written: seq<seq<string>>, formatTime: Timestamp -> string,
                      parseTime: string -> Option<Timestamp>)
    requires |written| == |comments| + 1
    requires forall i :: 0 <= i < |comments| ==> written[i + 1] == Row(CommentRecord(comments[i]), formatTime)
    ensures forall i :: 0 <= i < |comments| && parseTime(formatTime(comments[i].creationTime)).Some?
                                                  && parseTime(formatTime(comments[i].updateTime)).Some? ==>
              DecodeCommentRow(written[i + 1], parseTime)
                    == Some(comments[i].(creationTime := Reread(comments[i].creationTime, formatTime, parseTime),
                                         updateTime := Reread(comments[i].updateTime, formatTime, parseTime)))
  {
    forall i | 0 <= i < |comments| && parseTime(formatTime(comments[i].creationTime)).Some?
                                                  && parseTime(formatTime(comments[i].updateTime)).Some?
      ensures DecodeCommentRow(written[i + 1], parseTime)
                    == Some(comments[i].(creationTime := Reread(comments[i].creationTime, formatTime, parseTime),
                                         updateTime := Reread(comments[i].updateTime, formatTime, parseTime)))
    {
      CommentRowRoundTrip(comments[i], formatTime, parseTime);
    }
  }

  /**
   * exporter_csv.go, ExportTopicCommentsCSV: the rows written to
   * topic_comments.csv. With room in the file, the header and then each
   * comment's row; a reader that accepts the time format gets every
   * comment back with its times as the cells hold them.
   */
  method ExportTopicCommentsCsv(comments: seq<TopicCommentsEntry>, sink: FileSink, formatTime: Timestamp -> string,
                                ghost parseTime: string -> Option<Timestamp>) returns (written: seq<seq<string>>)
    ensures comments != [] && sink.createError.None? && sink.capacity > |comments| ==>
              && |written| == |comments| + 1 && written[0] == Header(CommentRecord(comments[0]))
              && (forall i :: 0 <= i < |comments| ==> written[i + 1] == Row(CommentRecord(comments[i]), formatTime))
              && (forall i :: 0 <= i < |comments| && parseTime(formatTime(comments[i].creationTime)).Some?
                                                  && parseTime(formatTime(comments[i].updateTime)).Some? ==>
                    DecodeCommentRow(written[i + 1], parseTime)
                    == Some(comments[i].(creationTime := Reread(comments[i].creationTime, formatTime, parseTime),
                                         updateTime := Reread(comments[i].updateTime, formatTime, parseTime))))
    ensures comments != [] && sink.createError.None? && sink.capacity <= |comments| ==>
              && |written| == sink.capacity
              && (sink.capacity > 0 ==> written[0] == Header(CommentRecord(comments[0])))
              && (forall i :: 0 < i < |written| ==> written[i] == Row(CommentRecord(comments[i - 1]), formatTime))
    ensures comments == [] || sink.createError.Some? ==> written == []
  {
    var records := CommentRecords(comments);
    var r;
    r, written := ExportArrayToCsv(records, sink, formatTime);
    if comments != [] && sink.createError.None? {
      CommentFileRows(comments, records, sink, written, formatTime, parseTime);
    }
  }

  /** What a comment file holds, given the table ExportArrayToCsv wrote. */
  lemma CommentFileRows(comments: seq<TopicCommentsEntry>, records: seq<Record>, sink: FileSink, written: seq<seq<string>>,
                        formatTime: Timestamp -> string, parseTime: string -> Option<Timestamp>)
    requires comments != [] && |records| == |comments| && SameType(records)
    requires forall i :: 0 <= i < |comments| ==> records[i] == CommentRecord(comments[i])
    requires written == Table(records, formatTime)[..Min(|records| + 1, sink.capacity)]
    ensures sink.capacity > |comments| ==>
              && |written| == |comments| + 1 && written[0] == Header(CommentRecord(comments[0]))
              && (forall i :: 0 <= i < |comments| ==> written[i + 1] == Row(CommentRecord(comments[i]), formatTime))
              && (forall i :: 0 <= i < |comments| && parseTime(formatTime(comments[i].creationTime)).Some?
                                                  && parseTime(formatTime(comments[i].updateTime)).Some? ==>
                    DecodeCommentRow(written[i + 1], parseTime)
                    == Some(comments[i].(creationTime := Reread(comments[i].creationTime, formatTime, parseTime),
                                         updateTime := Reread(comments[i].updateTime, formatTime, parseTime))))
    ensures sink.capacity <= |comments| ==>
              && |written| == sink.capacity
              && (sink.capacity > 0 ==> written[0] == Header(CommentRecord(comments[0])))
              && (forall i :: 0 < i < |written| ==> written[i] == Row(CommentRecord(comments[i - 1]), formatTime))
  {
    TableShape(records, formatTime);
    var table := Table(records, formatTime);
    if sink.capacity > |comments| {
      assert written == table;
      CommentRowsRead(comments, written, formatTime, parseTime);
    } else {
      assert written == table[..sink.capacity];
    }
  }

  /** Every row of a written edit file reads back as its edit does. */
  lemma EditRowsRead(edits: seq<TopicEditsEntry>, written: seq<seq<string>>, formatTime: Timestamp -> string,
                      parseTime: string -> Option<Timestamp>)
    requires |written| == |edits| + 1
    requires forall i :: 0 <= i < |edits| ==> written[i + 1] == Row(EditRecord(edits[i]), formatTime)
    ensures forall i :: 0 <= i < |edits| && parseTime(formatTime(edits[i].creationTime)).Some? ==>
              DecodeEditRow(written[i + 1], parseTime)
                    == Some(edits[i].(creationTime := Reread(edits[i].creationTime, formatTime, parseTime)))
  {
    forall i | 0 <= i < |edits| && parseTime(formatTime(edits[i].creationTime)).Some?
      ensures DecodeEditRow(written[i + 1], parseTime)
                    == Some(edits[i].(creationTime := Reread(edits[i].creationTime, formatTime, parseTime)))
    {
      EditRowRoundTrip(edits[i], formatTime, parseTime);
    }
  }

  /**
   * exporter_csv.go, ExportTopicEditsCSV: the rows written to
   * topic_edits.csv, as for comments.
   */
  method ExportTopicEditsCsv(edits: seq<TopicEditsEntry>, sink: FileSink, formatTime: Timestamp -> string,
                             ghost parseTime: string -> Option<Timestamp>) returns (written: seq<seq<string>>)
    ensures edits != [] && sink.createError.None? && sink.capacity > |edits| ==>
              && |written| == |edits| + 1 && written[0] == Header(EditRecord(edits[0]))
              && (forall i :: 0 <= i < |edits| ==> written[i + 1] == Row(EditRecord(edits[i]), formatTime))
              && (forall i :: 0 <= i < |edits| && parseTime(formatTime(edits[i].creationTime)).Some? ==>
                    DecodeEditRow(written[i + 1], parseTime)
                    == Some(edits[i].(creationTime := Reread(edits[i].creationTime, formatTime, parseTime))))
    ensures edits != [] && sink.createError.None? && sink.capacity <= |edits| ==>
              && |written| == sink.capacity
              && (sink.capacity > 0 ==> written[0] == Header(EditRecord(edits[0])))
              && (forall i :: 0 < i < |written| ==> written[i] == Row(EditRecord(edits[i - 1]), formatTime))
    ensures edits == [] || sink.createError.Some? ==> written == []
  {
    var records := EditRecords(edits);
    var r;
    r, written := ExportArrayToCsv(records, sink, formatTime);
    if edits != [] && sink.createError.None? {
      TableShape(records, formatTime);
      ghost var table := Table(records, formatTime);
      forall i | 0 <= i < |edits|
        ensures table[i + 1] == Row(EditRecord(edits[i]), formatTime)
      {
        assert records[i] == EditRecord(edits[i]);
      }
      if sink.capacity > |edits| {
        assert written == table;
        EditRowsRead(edits, written, formatTime, parseTime);
      } else {
        assert written == table[..sink.capacity];
      }
    }
  }
}
