/**
 * `save_as_csv`: the numbered records become the rows of the backup table,
 * a fixed header row first and then one row per record in list order,
 * written one row at a time to a new file in `backup`.
 */
module CsvBackup {
  import opened Wrappers
  import opened PostNumbering
  import opened BackupName

  /** The column names written as the first row. */
  const HEADER: seq<string> := ["no", "title", "url", "tags", "text"]

  /** The row for one record: its fields in header order. */
  function Row(post: PostData): seq<string> {
    [post.no, post.title, post.url, post.tags, post.text]
  }

  /** The data rows, one per record, in the order of the records. */
  function Rows(postDataList: seq<PostData>): (rows: seq<seq<string>>)
    ensures |rows| == |postDataList|
    ensures forall k :: 0 <= k < |postDataList| ==> rows[k] == Row(postDataList[k])
  {
    if postDataList == [] then [] else [Row(postDataList[0])] + Rows(postDataList[1..])
  }

  /** Everything the file holds: the header row followed by the data rows. */
  function Table(postDataList: seq<PostData>): (table: seq<seq<string>>)
    ensures |table| == |postDataList| + 1
    ensures table[0] == HEADER
    ensures forall k :: 0 <= k < |postDataList| ==> table[k + 1] == Row(postDataList[k])
  {
    [HEADER] + Rows(postDataList)
  }

  /** Reads a record back from a row of five fields in header order. */
  function RecordOfRow(row: seq<string>): Option<PostData> {
    if |row| == |HEADER| then Some(PostData(row[0], row[4], row[1], row[3], row[2])) else None
  }

  function RecordsOfRows(rows: seq<seq<string>>): Option<seq<PostData>> {
    if rows == [] then Some([])
    else match (RecordOfRow(rows[0]), RecordsOfRows(rows[1..]))
      case (Some(post), Some(rest)) => Some([post] + rest)
      case _ => None
  }

  /** Reads the records back from a table; `None` unless it starts with the header row. */
  function RecordsOfTable(table: seq<seq<string>>): Option<seq<PostData>> {
    if table == [] || table[0] != HEADER then None else RecordsOfRows(table[1..])
  }

  lemma {:induction false} RowsRoundTrip(postDataList: seq<PostData>)
    ensures RecordsOfRows(Rows(postDataList)) == Some(postDataList)
  {
    if postDataList != [] {
      var rows := Rows(postDataList);
      assert rows[1..] == Rows(postDataList[1..]);
      RowsRoundTrip(postDataList[1..]);
      assert [postDataList[0]] + postDataList[1..] == postDataList;
    }
  }

  /**
   * The table carries every record exactly once and in order: reading it
   * back gives the list it was built from, so nothing is dropped,
   * duplicated or reordered.
   */
  lemma TableRoundTrip(postDataList: seq<PostData>)
    ensures RecordsOfTable(Table(postDataList)) == Some(postDataList)
  {
    assert Table(postDataList)[1..] == Rows(postDataList);
    RowsRoundTrip(postDataList);
  }

  /** The output file, seen as the path it was opened at and the rows written so far. */
  class CsvFile {
    const path: string
    var rows: seq<seq<string>>

    /** `open(path, 'w')`: a new, empty file. */
    constructor Open(path: string)
      ensures this.path == path && rows == []
    {
      this.path := path;
      rows := [];
    }

    /** `csv_writer.writerow(row)`: the row goes at the end of the file. */
    method WriteRow(row: seq<string>)
      modifies this
      ensures rows == old(rows) + [row]
    {
      rows := rows + [row];
    }
  }

  /**
   * Writes the header and then each record's row to a new file named after
   * the time `now`, inside `backup` joined with the separator `sep`.
   */
  method SaveAsCsv(postDataList: seq<PostData>, now: DateTime, sep: char) returns (file: CsvFile)
    ensures fresh(file)
    ensures file.path == CsvPath(now, sep)
    ensures file.rows == Table(postDataList)
  {
    var csvName := CsvPath(now, sep);
    var colName := HEADER;
    file := new CsvFile.Open(csvName);
    file.WriteRow(colName);
    for k := 0 to |postDataList|
      invariant file.path == csvName
      invariant file.rows == Table(postDataList[..k])
    {
      var post := postDataList[k];
      var rowItems := [post.no, post.title, post.url, post.tags, post.text];
      file.WriteRow(rowItems);
      assert postDataList[..k + 1] == postDataList[..k] + [post];
    }
    assert postDataList[..|postDataList|] == postDataList;
  }
}
