/**
 The CSV output file (`save_to_csv`), as a sequence of rows.

 Each write opens the file for appending, writes the header row when the file
 is empty at that moment, then writes the data row when there is one. Quoting,
 encoding and line endings belong to Python's `csv` module and are not modelled;
 every row written has at least one field, so the file is empty on disk exactly
 when it has no rows.
 */
module Storage {

  type Row = seq<string>

  type File = seq<Row>

  /** The fixed column names, written once at the top of the file. */
  const Header: Row := ["User", "Handle", "PostDate", "TweetText", "ReplyCount", "RetweetCount", "LikeCount"]

  /** One `save_to_csv` call: header only into an empty file, data only when non-empty. */
  function Save(f: File, data: Row): (r: File)
    ensures |f| <= |r| && r[..|f|] == f
    ensures |r| == |f| + (if f == [] then 1 else 0) + (if data == [] then 0 else 1)
    ensures f == [] ==> r[0] == Header
    ensures data != [] ==> r[|r| - 1] == data
  {
    var header := if f == [] then [Header] else [];
    var row := if data == [] then [] else [data];
    f + header + row
  }

  /** The rows of `rows` that are written as data rows, in order. */
  function NonEmptyRows(rows: seq<Row>): (r: seq<Row>)
    ensures |r| <= |rows|
    ensures forall x :: x in r ==> x in rows && x != []
    ensures (forall i :: 0 <= i < |rows| ==> rows[i] != []) ==> r == rows
  {
    if rows == [] then []
    else (if rows[0] == [] then [] else [rows[0]]) + NonEmptyRows(rows[1..])
  }

  /** Successive `save_to_csv` calls, one per row, in order. */
  function SaveAll(f: File, rows: seq<Row>): (r: File)
    decreases |rows|
  {
    if rows == [] then f else SaveAll(Save(f, rows[0]), rows[1..])
  }

  /** Saving `a` then `b` is saving `a + b`. */
  lemma {:induction false} SaveAllAppend(f: File, a: seq<Row>, b: seq<Row>)
    ensures SaveAll(f, a + b) == SaveAll(SaveAll(f, a), b)
    decreases |a|
  {
    if a != [] {
      assert (a + b)[0] == a[0];
      assert (a + b)[1..] == a[1..] + b;
      SaveAllAppend(Save(f, a[0]), a[1..], b);
    } else {
      assert a + b == b;
    }
  }

  /**
   Any number of saves: the old rows stay, one header follows only when the
   file was empty and at least one save ran, then every non-empty data row in
   call order.
   */
  lemma {:induction false} SaveAllClosedForm(f: File, rows: seq<Row>)
    ensures SaveAll(f, rows) == f + (if f == [] && rows != [] then [Header] else []) + NonEmptyRows(rows)
    decreases |rows|
  {
    if rows != [] {
      var f' := Save(f, rows[0]);
      var header := if f == [] then [Header] else [];
      var first := if rows[0] == [] then [] else [rows[0]];
      var rest := NonEmptyRows(rows[1..]);
      assert f' == f + header + first;
      SaveAllClosedForm(f', rows[1..]);
      assert SaveAll(f, rows) == f' + rest;
      assert NonEmptyRows(rows) == first + rest;
      assert f + header + first + rest == f + header + (first + rest);
    }
  }

  /** Appending to a file that already has rows never writes another header. */
  lemma NoHeaderOnExistingFile(f: File, rows: seq<Row>)
    requires f != []
    ensures SaveAll(f, rows) == f + NonEmptyRows(rows)
  {
    SaveAllClosedForm(f, rows);
  }

  /**
   Starting from an empty file, at least one save leaves the header as row 0
   followed by the data rows; unless a data row spells out the header itself,
   no later row is a header.
   */
  lemma HeaderOnceFromEmpty(rows: seq<Row>)
    requires rows != []
    ensures SaveAll([], rows) == [Header] + NonEmptyRows(rows)
    ensures Header !in rows ==> Header !in SaveAll([], rows)[1..]
  {
    SaveAllClosedForm([], rows);
    assert SaveAll([], rows)[1..] == NonEmptyRows(rows);
  }
}
