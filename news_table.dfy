/**
 * The `news` table (`CREATE TABLE news (id INTEGER PRIMARY KEY, title TEXT,
 * description TEXT, link TEXT UNIQUE, published_at TEXT, zone TEXT,
 * created_at TEXT)`) as a value, and the one statement that writes it:
 * `INSERT OR IGNORE`.
 */
module NewsTable {

  /** The six values of one `INSERT OR IGNORE INTO news (title, description,
      link, published_at, zone, created_at)`. */
  datatype Fields = Fields(
    title: string,
    description: string,
    link: string,
    publishedAt: string,
    zone: string,
    createdAt: string)

  /** One row of `news`; `id` is the rowid SQLite assigns. */
  datatype Row = Row(
    id: int,
    title: string,
    description: string,
    link: string,
    publishedAt: string,
    zone: string,
    createdAt: string)

  /** The rows in rowid order, and the rowid the next insert receives. */
  datatype Table = Table(rows: seq<Row>, nextId: int)

  function RowOf(id: int, f: Fields): Row {
    Row(id, f.title, f.description, f.link, f.publishedAt, f.zone, f.createdAt)
  }

  /** The row `r` holds the values `f`, whatever its id. */
  predicate Holds(r: Row, f: Fields) {
    r.title == f.title && r.description == f.description && r.link == f.link
    && r.publishedAt == f.publishedAt && r.zone == f.zone && r.createdAt == f.createdAt
  }

  /** The links stored in `rows`. */
  function Links(rows: seq<Row>): set<string> {
    if rows == [] then {} else Links(rows[..|rows| - 1]) + {rows[|rows| - 1].link}
  }

  /** The `link UNIQUE` index lookup. */
  predicate HasLink(rows: seq<Row>, link: string) {
    exists k :: 0 <= k < |rows| && rows[k].link == link
  }

  /** The stored links are exactly the links some row holds. */
  lemma {:induction false} HasLinkIff(rows: seq<Row>, link: string)
    ensures HasLink(rows, link) <==> link in Links(rows)
  {
    if rows != [] {
      var n := |rows| - 1;
      HasLinkIff(rows[..n], link);
      if HasLink(rows, link) && rows[n].link != link {
        var k :| 0 <= k < |rows| && rows[k].link == link;
        assert rows[..n][k].link == link;
      }
      if HasLink(rows[..n], link) {
        var k :| 0 <= k < n && rows[..n][k].link == link;
        assert rows[k].link == link;
      }
    }
  }

  predicate UniqueLinks(rows: seq<Row>) {
    forall i, j :: 0 <= i < j < |rows| ==> rows[i].link != rows[j].link
  }

  predicate IncreasingIds(rows: seq<Row>) {
    forall i, j :: 0 <= i < j < |rows| ==> rows[i].id < rows[j].id
  }

  /** The rowid of the next insert: one more than the largest rowid, 1 for an
      empty table. */
  function NextRowid(rows: seq<Row>): int {
    if rows == [] then 1 else rows[|rows| - 1].id + 1
  }

  /** What the schema guarantees: `link` is unique, rowids are positive and
      increase in insertion order, and the counter is SQLite's next rowid. */
  predicate WellFormed(t: Table) {
    && UniqueLinks(t.rows)
    && IncreasingIds(t.rows)
    && (t.rows != [] ==> t.rows[0].id >= 1)
    && t.nextId == NextRowid(t.rows)
  }

  /** `INSERT OR IGNORE`: a row whose link is already stored makes the statement
      a no-op (the stored row wins, nothing is overwritten); otherwise the
      values are appended under the next rowid. */
  function InsertOrIgnore(t: Table, f: Fields): (r: Table)
    ensures HasLink(t.rows, f.link) ==> r == t
    ensures !HasLink(t.rows, f.link) ==>
              && |r.rows| == |t.rows| + 1 && r.rows[..|t.rows|] == t.rows
              && Holds(r.rows[|t.rows|], f) && r.rows[|t.rows|].id == t.nextId
              && r.nextId == t.nextId + 1
    ensures Links(r.rows) == Links(t.rows) + {f.link}
    ensures WellFormed(t) ==> WellFormed(r)
  {
    if HasLink(t.rows, f.link) then
      HasLinkIff(t.rows, f.link);
      t
    else
      var r := Table(t.rows + [RowOf(t.nextId, f)], t.nextId + 1);
      assert r.rows[..|t.rows|] == t.rows;
      r
  }
}
