/**
 * The SQLite database `news.db` as an object: its `news` table changes in place
 * as `fetch_news` inserts rows, and `get_news` reads it.
 */
module NewsDb {
  import opened Wrappers
  import opened Feed
  import opened Zones
  import opened NewsTable
  import opened Ingestion
  import opened Query

  /** One entry of the `news` list in `get_news`'s JSON answer
      (`created_at` is not part of it). */
  datatype NewsItem = NewsItem(
    id: int,
    title: string,
    description: string,
    link: string,
    publishedAt: string,
    zone: string)

  function ItemOf(r: Row): NewsItem {
    NewsItem(r.id, r.title, r.description, r.link, r.publishedAt, r.zone)
  }

  /** No row of the database is of `zone`, when `zone` is not a zone name. */
  lemma UnknownZoneNoNews(t: Table, zone: string)
    requires Zoned(t) && zone != "all" && !IsZone(zone)
    ensures NewsQuery(t.rows, zone) == []
  {
    UnknownZoneIsEmpty(t.rows, zone);
  }

  /** Inserting a row of a known zone keeps every zone column a zone name. */
  lemma InsertZoned(t: Table, f: Fields)
    requires Zoned(t) && IsZone(f.zone)
    ensures Zoned(NewsTable.InsertOrIgnore(t, f))
  {
    var r := NewsTable.InsertOrIgnore(t, f);
    forall k | 0 <= k < |r.rows| ensures IsZone(r.rows[k].zone) {
      if k < |t.rows| { assert r.rows[k] == r.rows[..|t.rows|][k]; }
    }
  }

  /** What `get_news` promises of its answer for `zone`: as many entries as
      the selected rows, capped at the limit; newest first; only entries of
      the requested zone unless it is `'all'`. */
  predicate Answers(rows: seq<Row>, zone: string, news: seq<NewsItem>) {
    && |news| == Min(|Selected(rows, zone)|, Limit(zone))
    && (forall i, j :: 0 <= i < j < |news| ==> Text.Le(news[j].publishedAt, news[i].publishedAt))
    && (zone != "all" ==> forall i :: 0 <= i < |news| ==> news[i].zone == zone)
  }

  /** The JSON entries built from the query's rows keep the query's guarantees. */
  lemma QueryItems(rows: seq<Row>, zone: string, fetched: seq<Row>, news: seq<NewsItem>)
    requires fetched == NewsQuery(rows, zone)
    requires |news| == |fetched| && forall i :: 0 <= i < |news| ==> news[i] == ItemOf(fetched[i])
    ensures Answers(rows, zone, news)
  {
    forall i, j | 0 <= i < j < |news| ensures Text.Le(news[j].publishedAt, news[i].publishedAt) {
      assert news[i].publishedAt == fetched[i].publishedAt && news[j].publishedAt == fetched[j].publishedAt;
    }
  }

  /** The loop of `get_news` that appends one JSON entry per fetched row. */
  method ToItems(fetched: seq<Row>) returns (news: seq<NewsItem>)
    ensures |news| == |fetched|
    ensures forall i :: 0 <= i < |news| ==> news[i] == ItemOf(fetched[i])
  {
    news := [];
    for i := 0 to |fetched|
      invariant |news| == i
      invariant forall j :: 0 <= j < i ==> news[j] == ItemOf(fetched[j])
    {
      news := news + [ItemOf(fetched[i])];
    }
  }

  class NewsStore {
    /** The rows of `news`, in rowid order. */
    var rows: seq<Row>
    /** The rowid SQLite gives the next inserted row. */
    var nextId: int

    function Snapshot(): Table
      reads this
    {
      Table(rows, nextId)
    }

    /** The schema's guarantees, and every zone column holds a zone name. */
    ghost predicate Valid()
      reads this
    {
      WellFormed(Snapshot()) && Zoned(Snapshot())
    }

    /** `init_db` on a fresh database: an empty `news` table. */
    constructor ()
      ensures Valid()
      ensures rows == [] && nextId == 1
    {
      rows := [];
      nextId := 1;
    }

    /** One `INSERT OR IGNORE INTO news ... VALUES (...)`; reports whether a
        row was added. */
    method InsertOrIgnore(f: Fields) returns (inserted: bool)
      requires Valid() && IsZone(f.zone)
      modifies this
      ensures Snapshot() == NewsTable.InsertOrIgnore(old(Snapshot()), f)
      ensures inserted <==> !HasLink(old(rows), f.link)
      ensures Valid()
    {
      var t := Snapshot();
      inserted := !exists k | 0 <= k < |rows| :: rows[k].link == f.link;
      if inserted {
        rows := rows + [RowOf(nextId, f)];
        nextId := nextId + 1;
      }
      assert Snapshot() == NewsTable.InsertOrIgnore(t, f);
      InsertZoned(t, f);
    }

    /** The loop of `fetch_news` over one batch of articles read from the feed
        at time `now`: each article is classified and, when it has a zone,
        inserted. */
    method IngestBatch(articles: seq<RawArticle>, now: string)
      requires Valid()
      modifies this
      ensures Snapshot() == Ingest(ClassifyArticle, old(Snapshot()), articles, now)
      ensures Valid()
    {
      for i := 0 to |articles|
        invariant Snapshot() == Ingest(ClassifyArticle, old(Snapshot()), articles[..i], now)
        invariant Valid()
      {
        IngestSnoc(ClassifyArticle, old(Snapshot()), articles, i, now);
        var zone := ClassifyArticle(articles[i]);
        if zone.Some? {
          var _ := InsertOrIgnore(FieldsOf(articles[i], zone.value, now));
        }
      }
      assert articles[..|articles|] == articles;
    }

    /** `get_news` with the request's `zone` argument (`'all'` when absent):
        the rows of the query, newest first, as JSON entries. */
    method GetNews(zoneArg: Option<string>) returns (news: seq<NewsItem>)
      ensures var fetched := NewsQuery(rows, zoneArg.GetOr("all"));
              |news| == |fetched| && forall i :: 0 <= i < |news| ==> news[i] == ItemOf(fetched[i])
      ensures Answers(rows, zoneArg.GetOr("all"), news)
    {
      var zone := zoneArg.GetOr("all");
      var fetched := NewsQuery(rows, zone);
      news := ToItems(fetched);
      QueryItems(rows, zone, fetched, news);
    }
  }
}
