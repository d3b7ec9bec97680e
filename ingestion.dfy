/**
 * The classify-and-insert loop of `fetch_news` as a function of the table, the
 * batch of raw articles and the clock reading: each article, in order, is
 * classified; an article with a zone is inserted with `INSERT OR IGNORE`, one
 * without is dropped.
 */
module Ingestion {
  import opened Wrappers
  import opened Feed
  import opened Zones
  import opened NewsTable

  /** The values the loop inserts for article `a` classified into `zone`:
      missing keys become `''`, `created_at` is the clock reading. */
  function FieldsOf(a: RawArticle, zone: string, now: string): Fields {
    Fields(TitleOf(a), DescriptionOf(a), LinkOf(a), PubDateOf(a), zone, now)
  }

  /** The row `r` was inserted for article `a` at time `now`: its zone is the
      classifier's verdict on `a` and its other columns are `a`'s fields. */
  predicate Stores(classify: RawArticle -> Option<string>, r: Row, a: RawArticle, now: string) {
    classify(a) == Some(r.zone) && Holds(r, FieldsOf(a, r.zone, now))
  }

  /** One iteration of the loop. */
  function Step(classify: RawArticle -> Option<string>, t: Table, a: RawArticle, now: string): Table {
    match classify(a)
    case None => t
    case Some(zone) => InsertOrIgnore(t, FieldsOf(a, zone, now))
  }

  /** The row `r` was inserted for some article of `articles` at time `now`. */
  predicate StoredFrom(classify: RawArticle -> Option<string>, r: Row, articles: seq<RawArticle>, now: string) {
    exists i :: 0 <= i < |articles| && Stores(classify, r, articles[i], now)
  }

  /** One step keeps the stored rows and adds at most the row of `a`, under
      the next rowid. */
  lemma StepShape(classify: RawArticle -> Option<string>, t: Table, a: RawArticle, now: string)
    ensures var r := Step(classify, t, a, now);
            && |t.rows| <= |r.rows| <= |t.rows| + 1
            && r.rows[..|t.rows|] == t.rows
            && r.nextId == t.nextId + (|r.rows| - |t.rows|)
            && (|r.rows| > |t.rows| ==> Stores(classify, r.rows[|t.rows|], a, now)
                                        && r.rows[|t.rows|].id == t.nextId)
  {
  }

  /** The whole loop over `articles`: the rows already stored are kept as they
      are, every row added was inserted for some article of the batch, and the
      rowids of the added rows continue the table's sequence. */
  function Ingest(classify: RawArticle -> Option<string>, t: Table, articles: seq<RawArticle>, now: string): (r: Table)
    decreases |articles|
    ensures |t.rows| <= |r.rows| && r.rows[..|t.rows|] == t.rows
    ensures forall k :: |t.rows| <= k < |r.rows| ==> StoredFrom(classify, r.rows[k], articles, now)
    ensures forall k :: |t.rows| <= k < |r.rows| ==> r.rows[k].id == t.nextId + (k - |t.rows|)
    ensures r.nextId == t.nextId + (|r.rows| - |t.rows|)
  {
    if articles == [] then t
    else
      var n := |articles| - 1;
      var prefix := articles[..n];
      var mid := Ingest(classify, t, prefix, now);
      var r := Step(classify, mid, articles[n], now);
      StepShape(classify, mid, articles[n], now);
      assert r.rows[..|t.rows|] == t.rows by {
        assert r.rows[..|t.rows|] == r.rows[..|mid.rows|][..|t.rows|];
      }
      forall k | |t.rows| <= k < |r.rows|
        ensures StoredFrom(classify, r.rows[k], articles, now)
        ensures r.rows[k].id == t.nextId + (k - |t.rows|)
      {
        if k < |mid.rows| {
          assert r.rows[k] == r.rows[..|mid.rows|][k];
          var i :| 0 <= i < n && Stores(classify, mid.rows[k], prefix[i], now);
          assert prefix[i] == articles[i];
        } else {
          assert Stores(classify, r.rows[k], articles[n], now);
        }
      }
      r
  }

  /** Going one article further is one more step. */
  lemma IngestSnoc(classify: RawArticle -> Option<string>, t: Table, articles: seq<RawArticle>, i: int, now: string)
    requires 0 <= i < |articles|
    ensures Ingest(classify, t, articles[..i + 1], now) == Step(classify, Ingest(classify, t, articles[..i], now), articles[i], now)
  {
    assert articles[..i + 1][..i] == articles[..i];
  }

  /** The links of the classified articles of a batch. */
  function ClassifiedLinks(classify: RawArticle -> Option<string>, articles: seq<RawArticle>): set<string> {
    if articles == [] then {}
    else
      var n := |articles| - 1;
      ClassifiedLinks(classify, articles[..n])
      + (if classify(articles[n]).Some? then {LinkOf(articles[n])} else {})
  }

  /** A link is among the classified links exactly when some classified
      article of the batch carries it. */
  lemma {:induction false} ClassifiedLinksIff(classify: RawArticle -> Option<string>, articles: seq<RawArticle>, link: string)
    ensures link in ClassifiedLinks(classify, articles) <==>
              exists i :: 0 <= i < |articles| && classify(articles[i]).Some? && LinkOf(articles[i]) == link
  {
    if articles != [] {
      var n := |articles| - 1;
      var prefix := articles[..n];
      ClassifiedLinksIff(classify, prefix, link);
      if link in ClassifiedLinks(classify, prefix) {
        var i :| 0 <= i < n && classify(prefix[i]).Some? && LinkOf(prefix[i]) == link;
        assert prefix[i] == articles[i];
      }
      if i :| 0 <= i < |articles| && classify(articles[i]).Some? && LinkOf(articles[i]) == link {
        if i < n {
          assert prefix[i] == articles[i];
        }
      }
    }
  }

  /** After the loop the stored links are the old ones plus the links of the
      classified articles: every classified article's link is present, and no
      other link has appeared. */
  lemma {:induction false} IngestLinks(classify: RawArticle -> Option<string>, t: Table, articles: seq<RawArticle>, now: string)
    ensures Links(Ingest(classify, t, articles, now).rows) == Links(t.rows) + ClassifiedLinks(classify, articles)
    decreases |articles|
  {
    if articles != [] {
      var n := |articles| - 1;
      IngestLinks(classify, t, articles[..n], now);
    }
  }

  /** The loop keeps the schema's guarantees: links stay unique, rowids increase. */
  lemma {:induction false} IngestWellFormed(classify: RawArticle -> Option<string>, t: Table, articles: seq<RawArticle>, now: string)
    requires WellFormed(t)
    ensures WellFormed(Ingest(classify, t, articles, now))
    decreases |articles|
  {
    if articles != [] {
      IngestWellFormed(classify, t, articles[..|articles| - 1], now);
    }
  }

  /** Every stored row's zone is one of the nine zones. */
  predicate Zoned(t: Table) {
    forall k :: 0 <= k < |t.rows| ==> IsZone(t.rows[k].zone)
  }

  /** Only classified articles are stored, so the zone column only ever holds a
      zone name. */
  lemma IngestZoned(classify: RawArticle -> Option<string>, t: Table, articles: seq<RawArticle>, now: string)
    requires forall a :: classify(a).Some? ==> IsZone(classify(a).value)
    requires Zoned(t)
    ensures Zoned(Ingest(classify, t, articles, now))
  {
    var r := Ingest(classify, t, articles, now);
    forall k | 0 <= k < |r.rows| ensures IsZone(r.rows[k].zone) {
      if k < |t.rows| {
        assert r.rows[k] == r.rows[..|t.rows|][k];
      } else {
        var i :| 0 <= i < |articles| && Stores(classify, r.rows[k], articles[i], now);
      }
    }
  }

  /** A batch whose classified links are all stored already changes nothing. */
  lemma {:induction false} IngestPresent(classify: RawArticle -> Option<string>, t: Table, articles: seq<RawArticle>, now: string)
    requires ClassifiedLinks(classify, articles) <= Links(t.rows)
    ensures Ingest(classify, t, articles, now) == t
    decreases |articles|
  {
    if articles != [] {
      var n := |articles| - 1;
      IngestPresent(classify, t, articles[..n], now);
      HasLinkIff(t.rows, LinkOf(articles[n]));
    }
  }

  /** Ingestion is idempotent: ingesting the same batch again, at any later
      time, adds no row and leaves the table as it was. */
  lemma IngestIdempotent(classify: RawArticle -> Option<string>, t: Table, articles: seq<RawArticle>, now: string, later: string)
    ensures var once := Ingest(classify, t, articles, now);
            Ingest(classify, once, articles, later) == once
  {
    IngestLinks(classify, t, articles, now);
    IngestPresent(classify, Ingest(classify, t, articles, now), articles, later);
  }

  /** An article whose link is not stored, that classifies, is stored by its step. */
  lemma StepStores(classify: RawArticle -> Option<string>, t: Table, a: RawArticle, now: string)
    requires classify(a).Some? && LinkOf(a) !in Links(t.rows)
    ensures var r := Step(classify, t, a, now);
            |r.rows| == |t.rows| + 1 && Stores(classify, r.rows[|t.rows|], a, now)
  {
    HasLinkIff(t.rows, LinkOf(a));
  }

  /** A link the table lacks and no classified article of `prefix` carries is
      still missing after `prefix` is ingested. */
  lemma LinkNotYetStored(classify: RawArticle -> Option<string>, t: Table, prefix: seq<RawArticle>, now: string, link: string)
    requires link !in Links(t.rows)
    requires forall j :: 0 <= j < |prefix| && classify(prefix[j]).Some? ==> LinkOf(prefix[j]) != link
    ensures link !in Links(Ingest(classify, t, prefix, now).rows)
  {
    IngestLinks(classify, t, prefix, now);
    ClassifiedLinksIff(classify, prefix, link);
  }

  /** First article wins: an article that classifies, whose link is new to the
      table and to every earlier classified article of the batch, is stored,
      with its own title, description, date and zone. */
  lemma {:induction false} FirstArticleWins(classify: RawArticle -> Option<string>, t: Table, articles: seq<RawArticle>, now: string, i: int)
    requires 0 <= i < |articles| && classify(articles[i]).Some?
    requires LinkOf(articles[i]) !in Links(t.rows)
    requires forall j :: 0 <= j < i && classify(articles[j]).Some? ==>
               LinkOf(articles[j]) != LinkOf(articles[i])
    ensures exists k :: |t.rows| <= k < |Ingest(classify, t, articles, now).rows|
                        && Stores(classify, Ingest(classify, t, articles, now).rows[k], articles[i], now)
    decreases |articles|
  {
    var n := |articles| - 1;
    if i == n {
      LastArticleStored(classify, t, articles, now);
    } else {
      var prefix := articles[..n];
      var mid := Ingest(classify, t, prefix, now);
      var r := Ingest(classify, t, articles, now);
      assert r == Step(classify, mid, articles[n], now);
      StepShape(classify, mid, articles[n], now);
      assert prefix[i] == articles[i];
      assert forall j :: 0 <= j < i ==> prefix[j] == articles[j];
      FirstArticleWins(classify, t, prefix, now, i);
      var k :| |t.rows| <= k < |mid.rows| && Stores(classify, mid.rows[k], articles[i], now);
      assert r.rows[k] == r.rows[..|mid.rows|][k];
      assert Stores(classify, r.rows[k], articles[i], now);
    }
  }

  /** The case of `FirstArticleWins` where the article is the last of the batch. */
  lemma LastArticleStored(classify: RawArticle -> Option<string>, t: Table, articles: seq<RawArticle>, now: string)
    requires |articles| > 0
    requires classify(articles[|articles| - 1]).Some?
    requires LinkOf(articles[|articles| - 1]) !in Links(t.rows)
    requires forall j :: 0 <= j < |articles| - 1 && classify(articles[j]).Some? ==>
               LinkOf(articles[j]) != LinkOf(articles[|articles| - 1])
    ensures exists k :: |t.rows| <= k < |Ingest(classify, t, articles, now).rows|
                        && Stores(classify, Ingest(classify, t, articles, now).rows[k], articles[|articles| - 1], now)
  {
    var n := |articles| - 1;
    var prefix := articles[..n];
    var mid := Ingest(classify, t, prefix, now);
    assert Ingest(classify, t, articles, now) == Step(classify, mid, articles[n], now);
    assert forall j :: 0 <= j < n ==> prefix[j] == articles[j];
    LinkNotYetStored(classify, t, prefix, now, LinkOf(articles[n]));
    StepStores(classify, mid, articles[n], now);
  }

  /** Later duplicates are ignored: in a well-formed table, the one row that
      holds a new link after the batch holds the first classified article with
      that link, not any later article carrying the same link (an article
      without a `link` key counts as carrying `''`). */
  lemma FirstArticleOwnsLink(classify: RawArticle -> Option<string>, t: Table, articles: seq<RawArticle>, now: string, i: int, k: int)
    requires WellFormed(t)
    requires 0 <= i < |articles| && classify(articles[i]).Some?
    requires LinkOf(articles[i]) !in Links(t.rows)
    requires forall j :: 0 <= j < i && classify(articles[j]).Some? ==>
               LinkOf(articles[j]) != LinkOf(articles[i])
    requires 0 <= k < |Ingest(classify, t, articles, now).rows|
    requires Ingest(classify, t, articles, now).rows[k].link == LinkOf(articles[i])
    ensures Stores(classify, Ingest(classify, t, articles, now).rows[k], articles[i], now)
  {
    var r := Ingest(classify, t, articles, now);
    FirstArticleWins(classify, t, articles, now, i);
    var k' :| |t.rows| <= k' < |r.rows| && Stores(classify, r.rows[k'], articles[i], now);
    IngestWellFormed(classify, t, articles, now);
    assert r.rows[k'].link == r.rows[k].link;
    assert k == k';
  }

  /** The number of rows a batch adds is the number of distinct links of its
      classified articles that were not stored before. */
  lemma IngestCount(classify: RawArticle -> Option<string>, t: Table, articles: seq<RawArticle>, now: string)
    requires WellFormed(t)
    ensures |Ingest(classify, t, articles, now).rows| - |t.rows| == |ClassifiedLinks(classify, articles) - Links(t.rows)|
  {
    var r := Ingest(classify, t, articles, now);
    IngestWellFormed(classify, t, articles, now);
    IngestLinks(classify, t, articles, now);
    UniqueLinksCount(t.rows);
    UniqueLinksCount(r.rows);
    var added := ClassifiedLinks(classify, articles) - Links(t.rows);
    assert Links(r.rows) == Links(t.rows) + added;
    assert Links(t.rows) * added == {};
  }

  /** With unique links, there are as many links as rows. */
  lemma {:induction false} UniqueLinksCount(rows: seq<Row>)
    requires UniqueLinks(rows)
    ensures |Links(rows)| == |rows|
  {
    if rows != [] {
      var n := |rows| - 1;
      assert UniqueLinks(rows[..n]);
      UniqueLinksCount(rows[..n]);
      HasLinkIff(rows[..n], rows[n].link);
    }
  }
}
