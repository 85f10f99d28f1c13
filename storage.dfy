/**
 * The values the two scripts move around: tables (a header and rows, as a
 * DataFrame read from or written to CSV), zip archives as named entries, and
 * a directory as a mutable map from file name to content.
 */
module Storage {

  type Row = seq<string>

  /** A DataFrame as CSV stores it: one header row and the data rows, in order. */
  datatype Table = Table(header: Row, rows: seq<Row>)

  /** What `pd.read_csv` makes of an archive entry: a table, or an error. */
  datatype Payload = Parsed(table: Table) | Unparseable

  datatype Entry = Entry(name: string, payload: Payload)

  /**
   * The content of a file: a CSV file holding a table, a zip archive listing
   * its entries in `namelist()` order, or bytes that are neither.
   */
  datatype Content = Csv(table: Table) | Archive(entries: seq<Entry>) | Corrupt

  type Files = map<string, Content>

  /** One directory on disk: whether it exists, and its files by name. */
  class Directory {
    var present: bool
    var files: Files
  }

  /** The rows of several chunks, appended in order. */
  function Flatten(chunks: seq<seq<Row>>): seq<Row>
  {
    if chunks == [] then [] else chunks[0] + Flatten(chunks[1..])
  }

  lemma {:induction false} FlattenAppend(chunks: seq<seq<Row>>, last: seq<Row>)
    ensures Flatten(chunks + [last]) == Flatten(chunks) + last
  {
    if chunks == [] {
      assert chunks + [last] == [last];
    } else {
      assert (chunks + [last])[1..] == chunks[1..] + [last];
      FlattenAppend(chunks[1..], last);
    }
  }
}
