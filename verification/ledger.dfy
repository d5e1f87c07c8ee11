/**
 The import ledger lookup `file_found`: an SQLite query
 `SELECT EXISTS(SELECT 1 FROM files WHERE file_name = ? AND date_created = ?)`
 whose single 0/1 cell is turned into a boolean. The `files` table is the
 sequence of its rows; text columns compare with SQLite's default BINARY
 collation, i.e. exact string equality.
 */
module Ledger {

  /** One row of `files(file_name text, date_created text, date_copied text, size real)`. */
  datatype Row = Row(fileName: string, dateCreated: string, dateCopied: string, size: real)

  /** The key of the ledger: file name and creation date. */
  predicate HasKey(r: Row, name: string, dateCreated: string) {
    r.fileName == name && r.dateCreated == dateCreated
  }

  /** The value of the `SELECT EXISTS(...)` cell: 1 when some row carries the
      key, 0 otherwise. */
  function SelectExists(rows: seq<Row>, name: string, dateCreated: string): (cell: int)
    ensures cell == 0 || cell == 1
    ensures cell == 1 <==> exists i | 0 <= i < |rows| :: HasKey(rows[i], name, dateCreated)
    decreases |rows|
  {
    if rows == [] then 0
    else if HasKey(rows[0], name, dateCreated) then 1
    else
      var rest := SelectExists(rows[1..], name, dateCreated);
      assert forall i | 1 <= i < |rows| :: rows[i] == rows[1..][i - 1];
      rest
  }

  /** `file_found(name, date_created, cursor)`: true unless the cell is 0. */
  function FileFound(name: string, dateCreated: string, rows: seq<Row>): (found: bool)
    ensures found <==> exists i | 0 <= i < |rows| ::
      rows[i].fileName == name && rows[i].dateCreated == dateCreated
    ensures rows == [] ==> !found
  {
    !(SelectExists(rows, name, dateCreated) == 0)
  }

  /** The set of keys present in the table. */
  function Keys(rows: seq<Row>): set<(string, string)> {
    set i | 0 <= i < |rows| :: (rows[i].fileName, rows[i].dateCreated)
  }

  /** The lookup depends only on the set of keys in the table. */
  lemma FileFoundIffKey(name: string, dateCreated: string, rows: seq<Row>)
    ensures FileFound(name, dateCreated, rows) <==> (name, dateCreated) in Keys(rows)
  {
    if (name, dateCreated) in Keys(rows) {
      var i :| 0 <= i < |rows| && (rows[i].fileName, rows[i].dateCreated) == (name, dateCreated);
      assert HasKey(rows[i], name, dateCreated);
    }
  }

  /** Tables with the same keys answer every lookup alike, whatever their row
      order, duplicate rows, copy dates or sizes. */
  lemma SameKeysSameAnswer(a: seq<Row>, b: seq<Row>, name: string, dateCreated: string)
    requires Keys(a) == Keys(b)
    ensures FileFound(name, dateCreated, a) == FileFound(name, dateCreated, b)
  {
    FileFoundIffKey(name, dateCreated, a);
    FileFoundIffKey(name, dateCreated, b);
  }

  /** Reordering the rows does not change the answer. */
  lemma PermutationSameAnswer(a: seq<Row>, b: seq<Row>, name: string, dateCreated: string)
    requires multiset(a) == multiset(b)
    ensures FileFound(name, dateCreated, a) == FileFound(name, dateCreated, b)
  {
    forall r | r in a ensures r in b {
      assert r in multiset(a);
    }
    forall r | r in b ensures r in a {
      assert r in multiset(b);
    }
    KeysOfSameRows(a, b);
    SameKeysSameAnswer(a, b, name, dateCreated);
  }

  lemma KeysOfSameRows(a: seq<Row>, b: seq<Row>)
    requires forall r :: r in a <==> r in b
    ensures Keys(a) == Keys(b)
  {
    forall k | k in Keys(a) ensures k in Keys(b) {
      var i :| 0 <= i < |a| && k == (a[i].fileName, a[i].dateCreated);
      assert a[i] in b;
      var j :| 0 <= j < |b| && b[j] == a[i];
    }
    forall k | k in Keys(b) ensures k in Keys(a) {
      var i :| 0 <= i < |b| && k == (b[i].fileName, b[i].dateCreated);
      assert b[i] in a;
      var j :| 0 <= j < |a| && a[j] == b[i];
    }
  }

  /** Repeating a row that is already in the table does not change the answer. */
  lemma DuplicateRowSameAnswer(rows: seq<Row>, j: nat, name: string, dateCreated: string)
    requires j < |rows|
    ensures FileFound(name, dateCreated, rows + [rows[j]]) == FileFound(name, dateCreated, rows)
  {
    var t := rows + [rows[j]];
    assert Keys(t) == Keys(rows) by {
      forall k | k in Keys(t) ensures k in Keys(rows) {
        var i :| 0 <= i < |t| && k == (t[i].fileName, t[i].dateCreated);
        if i == |rows| {
          assert k == (rows[j].fileName, rows[j].dateCreated);
        } else {
          assert t[i] == rows[i];
        }
      }
      forall k | k in Keys(rows) ensures k in Keys(t) {
        var i :| 0 <= i < |rows| && k == (rows[i].fileName, rows[i].dateCreated);
        assert t[i] == rows[i];
      }
    }
    SameKeysSameAnswer(t, rows, name, dateCreated);
  }

  /** The `date_copied` and `size` columns never influence the answer. */
  lemma NonKeyColumnsIrrelevant(a: seq<Row>, b: seq<Row>, name: string, dateCreated: string)
    requires |a| == |b|
    requires forall i | 0 <= i < |a| ::
      a[i].fileName == b[i].fileName && a[i].dateCreated == b[i].dateCreated
    ensures FileFound(name, dateCreated, a) == FileFound(name, dateCreated, b)
  {
    if FileFound(name, dateCreated, a) {
      var i :| 0 <= i < |a| && a[i].fileName == name && a[i].dateCreated == dateCreated;
      assert b[i].fileName == name && b[i].dateCreated == dateCreated;
    }
    if FileFound(name, dateCreated, b) {
      var i :| 0 <= i < |b| && b[i].fileName == name && b[i].dateCreated == dateCreated;
      assert a[i].fileName == name && a[i].dateCreated == dateCreated;
    }
  }

  /** Appending a row with the queried key makes the lookup succeed. */
  lemma AppendKeyFound(rows: seq<Row>, r: Row, name: string, dateCreated: string)
    requires HasKey(r, name, dateCreated)
    ensures FileFound(name, dateCreated, rows + [r])
  {
    assert (rows + [r])[|rows|] == r;
  }

  /** Appending any row never turns a found key into a missing one. */
  lemma AppendMonotone(rows: seq<Row>, r: Row, name: string, dateCreated: string)
    requires FileFound(name, dateCreated, rows)
    ensures FileFound(name, dateCreated, rows + [r])
  {
    var i :| 0 <= i < |rows| && rows[i].fileName == name && rows[i].dateCreated == dateCreated;
    assert (rows + [r])[i] == rows[i];
  }

  /** Appending a row that matches only one half of the key, or neither,
      leaves the answer as it was. */
  lemma AppendNonKeyRowSameAnswer(rows: seq<Row>, r: Row, name: string, dateCreated: string)
    requires r.fileName != name || r.dateCreated != dateCreated
    ensures FileFound(name, dateCreated, rows + [r]) == FileFound(name, dateCreated, rows)
  {
    var t := rows + [r];
    if FileFound(name, dateCreated, t) {
      var i :| 0 <= i < |t| && t[i].fileName == name && t[i].dateCreated == dateCreated;
      assert i < |rows| && t[i] == rows[i];
    }
    if FileFound(name, dateCreated, rows) {
      AppendMonotone(rows, r, name, dateCreated);
    }
  }

  /** Keys compare exactly: a stored `img.jpg` does not answer a lookup of `IMG.JPG`. */
  lemma KeysAreCaseSensitive()
    ensures FileFound("img.jpg", "2018-08-10", [Row("img.jpg", "2018-08-10", "2018-08-11", 2.0)])
    ensures !FileFound("IMG.JPG", "2018-08-10", [Row("img.jpg", "2018-08-10", "2018-08-11", 2.0)])
  {
    var rows := [Row("img.jpg", "2018-08-10", "2018-08-11", 2.0)];
    assert HasKey(rows[0], "img.jpg", "2018-08-10");
    assert "IMG.JPG"[0] != "img.jpg"[0];
  }
}
