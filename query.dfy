/**
 * The two queries of `get_news`:
 *   SELECT * FROM news ORDER BY published_at DESC LIMIT 100            (zone 'all')
 *   SELECT * FROM news WHERE zone = ? ORDER BY published_at DESC LIMIT 50
 * as a function of the table's rows. `published_at` is TEXT, so the order is
 * string order. SQLite leaves the order of rows with equal `published_at`
 * unspecified; this model keeps them in rowid order (a stable sort).
 */
module Query {
  import opened Text
  import opened NewsTable

  /** Rows in non-increasing `published_at` order. */
  predicate SortedDesc(s: seq<Row>) {
    forall i, j :: 0 <= i < j < |s| ==> Le(s[j].publishedAt, s[i].publishedAt)
  }

  /** Every row of `s` is published no later than `key`. */
  predicate AllAtMost(s: seq<Row>, key: string) {
    forall i :: 0 <= i < |s| ==> Le(s[i].publishedAt, key)
  }

  /** Inserts `x` after every row of `s` published at least as late as `x`. */
  function InsertDesc(x: Row, s: seq<Row>): (r: seq<Row>)
    ensures multiset(r) == multiset(s) + multiset{x}
  {
    if s == [] then [x]
    else if Le(x.publishedAt, s[0].publishedAt) then
      assert s == [s[0]] + s[1..];
      [s[0]] + InsertDesc(x, s[1..])
    else [x] + s
  }

  /** Inserting keeps an upper bound on `published_at`. */
  lemma {:induction false} InsertDescBound(x: Row, s: seq<Row>, key: string)
    requires AllAtMost(s, key) && Le(x.publishedAt, key)
    ensures AllAtMost(InsertDesc(x, s), key)
  {
    if s != [] && Le(x.publishedAt, s[0].publishedAt) {
      var rest := InsertDesc(x, s[1..]);
      assert AllAtMost(s[1..], key) by {
        forall i | 0 <= i < |s| - 1 ensures Le(s[1..][i].publishedAt, key) {
          assert s[1..][i] == s[i + 1];
        }
      }
      InsertDescBound(x, s[1..], key);
      var r := [s[0]] + rest;
      forall i | 0 <= i < |r| ensures Le(r[i].publishedAt, key) {
        if i > 0 { assert r[i] == rest[i - 1]; }
      }
    } else {
      var r := InsertDesc(x, s);
      forall i | 0 <= i < |r| ensures Le(r[i].publishedAt, key) {
        if i > 0 { assert r[i] == s[i - 1]; }
      }
    }
  }

  /** Inserting into a sorted sequence keeps it sorted. */
  lemma {:induction false} InsertDescSorted(x: Row, s: seq<Row>)
    requires SortedDesc(s)
    ensures SortedDesc(InsertDesc(x, s))
  {
    if s == [] {
    } else if Le(x.publishedAt, s[0].publishedAt) {
      var rest := InsertDesc(x, s[1..]);
      InsertDescSorted(x, s[1..]);
      InsertDescBound(x, s[1..], s[0].publishedAt);
      var r := [s[0]] + rest;
      forall i, j | 0 <= i < j < |r| ensures Le(r[j].publishedAt, r[i].publishedAt) {
        if i > 0 { assert r[i] == rest[i - 1] && r[j] == rest[j - 1]; }
        else { assert r[j] == rest[j - 1]; }
      }
    } else {
      LeTotal(x.publishedAt, s[0].publishedAt);
      forall j | 0 < j < |s| ensures Le(s[j].publishedAt, x.publishedAt) {
        LeTransitive(s[j].publishedAt, s[0].publishedAt, x.publishedAt);
      }
      var r := [x] + s;
      forall i, j | 0 <= i < j < |r| ensures Le(r[j].publishedAt, r[i].publishedAt) {
        if i > 0 { assert r[i] == s[i - 1] && r[j] == s[j - 1]; }
        else { assert r[j] == s[j - 1]; }
      }
    }
  }

  /** `ORDER BY published_at DESC`, ties in rowid order. */
  function SortDesc(s: seq<Row>): (r: seq<Row>)
    ensures SortedDesc(r)
    ensures multiset(r) == multiset(s)
  {
    if s == [] then []
    else
      var n := |s| - 1;
      assert s == s[..n] + [s[n]];
      InsertDescSorted(s[n], SortDesc(s[..n]));
      InsertDesc(s[n], SortDesc(s[..n]))
  }

  /** `WHERE zone = ?`: the rows of `zone`, in rowid order. */
  function InZone(rows: seq<Row>, zone: string): (r: seq<Row>)
    ensures forall x :: multiset(r)[x] == if x.zone == zone then multiset(rows)[x] else 0
  {
    if rows == [] then []
    else
      var n := |rows| - 1;
      assert rows == rows[..n] + [rows[n]];
      InZone(rows[..n], zone) + (if rows[n].zone == zone then [rows[n]] else [])
  }

  /** The rows a query considers: all of them for `'all'`, else those of the zone. */
  function Selected(rows: seq<Row>, zone: string): seq<Row> {
    if zone == "all" then rows else InZone(rows, zone)
  }

  /** The `LIMIT` of the query. */
  function Limit(zone: string): nat {
    if zone == "all" then 100 else 50
  }

  function Min(a: int, b: int): int {
    if a <= b then a else b
  }

  /** A prefix of a sorted sequence is sorted and draws on its rows. */
  lemma SortedPrefix(s: seq<Row>, n: nat)
    requires SortedDesc(s) && n <= |s|
    ensures SortedDesc(s[..n])
    ensures multiset(s[..n]) <= multiset(s)
  {
    assert s == s[..n] + s[n..];
  }

  /** Every row `WHERE zone = ?` keeps is of that zone. */
  lemma InZoneOnly(rows: seq<Row>, zone: string, x: Row)
    requires x in multiset(InZone(rows, zone))
    ensures x.zone == zone
  {
  }

  /** The rows `get_news` fetches for `zone`: at most the limit, newest first,
      all of the requested zone unless the zone is `'all'`. */
  function NewsQuery(rows: seq<Row>, zone: string): (r: seq<Row>)
    ensures |r| == Min(|Selected(rows, zone)|, Limit(zone))
    ensures SortedDesc(r)
    ensures multiset(r) <= multiset(Selected(rows, zone))
    ensures zone != "all" ==> forall i :: 0 <= i < |r| ==> r[i].zone == zone
  {
    var sorted := SortDesc(Selected(rows, zone));
    var n := Min(|sorted|, Limit(zone));
    SortedPrefix(sorted, n);
    var r := sorted[..n];
    forall i | 0 <= i < |r| && zone != "all" ensures r[i].zone == zone {
      assert r[i] in multiset(r);
      InZoneOnly(rows, zone, r[i]);
    }
    r
  }

  /** The limit cuts off only the oldest rows: every selected row left out of
      the result is published no later than every row in it. */
  lemma QueryKeepsNewest(rows: seq<Row>, zone: string, x: Row, y: Row)
    requires x in multiset(Selected(rows, zone)) - multiset(NewsQuery(rows, zone))
    requires y in NewsQuery(rows, zone)
    ensures Le(x.publishedAt, y.publishedAt)
  {
    var sorted := SortDesc(Selected(rows, zone));
    var n := Min(|sorted|, Limit(zone));
    assert NewsQuery(rows, zone) == sorted[..n];
    LeftOutInTail(sorted, n, x);
    var a :| n <= a < |sorted| && sorted[a] == x;
    var b :| 0 <= b < n && sorted[b] == y;
  }

  /** A row of `s` that its first `n` rows do not account for lies after them. */
  lemma LeftOutInTail(s: seq<Row>, n: nat, x: Row)
    requires n <= |s| && x in multiset(s) - multiset(s[..n])
    ensures exists a :: n <= a < |s| && s[a] == x
  {
    assert s == s[..n] + s[n..];
    assert x in multiset(s[n..]);
    var a :| 0 <= a < |s[n..]| && s[n..][a] == x;
    assert s[n + a] == x;
  }

  /** Below the limit nothing is cut: the result holds every selected row. */
  lemma QueryComplete(rows: seq<Row>, zone: string)
    requires |Selected(rows, zone)| <= Limit(zone)
    ensures multiset(NewsQuery(rows, zone)) == multiset(Selected(rows, zone))
  {
    var r := NewsQuery(rows, zone);
    var s := Selected(rows, zone);
    var d := multiset(s) - multiset(r);
    assert multiset(s) == multiset(r) + d;
    assert |d| == 0;
  }

  /** A zone no row carries, such as a name outside the taxonomy, gives an empty
      result rather than an error. */
  lemma UnknownZoneIsEmpty(rows: seq<Row>, zone: string)
    requires zone != "all"
    requires forall k :: 0 <= k < |rows| ==> rows[k].zone != zone
    ensures NewsQuery(rows, zone) == []
  {
  }
}
