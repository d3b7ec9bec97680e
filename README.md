# Milan zone news backend — a Dafny model

The backend collects news about Milan from a news feed. It sorts each article
into one of nine neighbourhoods ("zones") of the city by keyword matching. It
stores the classified articles in an SQLite table `news` whose `link` column
is unique. A JSON endpoint serves the stored articles, newest first,
optionally filtered by zone.

This project models the three parts of `milano_news_backend.py` that carry
logic:

- **The zone taxonomy and the classifier** (`MILANO_ZONES`, `classify_article`;
  modules `Text`, `Feed`, `Zones`, `ZoneExamples`). The taxonomy is an ordered
  sequence of (zone, keyword phrases) pairs. The classifier lower-cases
  `title + ' ' + description` and returns the first zone, in definition order,
  one of whose keywords is a substring of that text. Missing keys read as `''`.
- **Ingestion** (the classify-and-insert loop of `fetch_news`; modules
  `NewsTable`, `Ingestion`, `NewsDb`). The table is a sequence of rows in rowid
  order plus the next rowid. `INSERT OR IGNORE` against `link TEXT UNIQUE`
  appends a row only when its link is new. `Ingestion.Ingest` is the
  specification of the loop over a batch. It is generic in the classifier, so
  its lemmas hold for any classifier. `NewsDb.NewsStore.IngestBatch` is the
  loop itself, over a class whose fields change in place, proved equal to
  `Ingest` with `ClassifyArticle`.
- **The news query** (`get_news`; modules `Query`, `NewsDb`). `Query.NewsQuery`
  is the `SELECT … [WHERE zone = ?] ORDER BY published_at DESC LIMIT n`
  statement as a function of the rows. `NewsDb.NewsStore.GetNews` is the loop
  that turns the fetched rows into JSON entries.

`published_at` is a TEXT column, so `ORDER BY` compares strings code point by
code point (SQLite's binary collation); `Text.Le` is that order. The clock
(`datetime.now()`) and the feed's article list are parameters.

## Model

| member | source | states |
|---|---|---|
| Zones.ZoneHit | milano_news_backend.py:94-96 | a zone is hit exactly when the lower-cased form of one of its keywords occurs in the text |
| Zones.FirstZone | milano_news_backend.py:93-97 | `None` exactly when no zone is hit; a result names a zone that is hit and before which no zone is hit |
| Zones.Classify | milano_news_backend.py:89-97 | `None` exactly when no keyword of any zone occurs in the lower-cased `title + ' ' + description`; a result is a zone of the taxonomy with a keyword that occurs |
| Zones.ClassifyArticle | milano_news_backend.py:17-27 | with `MILANO_ZONES`, a result is always one of the nine zone names |
| Zones.FirstZoneAt | milano_news_backend.py:93-96 | with distinct zone names, a result `tax[i].0` means zone `i` is hit and no earlier zone is |
| Zones.ClassifyFirstMatch | milano_news_backend.py:17-27 | first match wins: when the classifier returns the zone at position `i` of `MILANO_ZONES`, no earlier zone has a keyword in the text |
| Zones.EarlierZoneWins | milano_news_backend.py:93-96 | when the text hits two zones, the later one is never returned |
| ZoneExamples.PortaTicineseSudIsDarsena | milano_news_backend.py:18-20 | "Porta Ticinese sud" also hits `porta_ticinese`, but is classified `darsena`, the zone defined earlier |
| ZoneExamples.NavigliInFesta | milano_news_backend.py:91-95 | the mixed-case title "Navigli in festa" is lower-cased before the search and is classified `navigli` |
| ZoneExamples.NavigliMissesPortaTicineseSud | milano_news_backend.py:18-19 | no keyword of `navigli` occurs in "porta ticinese sud", so the search moves on to `darsena` |
| Text.OccursIff | milano_news_backend.py:95 | the left-to-right substring search succeeds exactly when the keyword occurs at some position |
| Text.ToLower | milano_news_backend.py:91 | lower-casing keeps the length and maps each character to its lower-case form |
| NewsTable.HasLinkIff | milano_news_backend.py:35 | the unique-index lookup finds a link exactly when it is among the stored links |
| NewsTable.InsertOrIgnore | milano_news_backend.py:70-78 | a stored link leaves the table unchanged; a new link appends exactly one row with the given values under the next rowid; the links grow by the new link; the schema's invariant is kept |
| Ingestion.Ingest | milano_news_backend.py:65-78 | rows already stored are kept; every added row was inserted for an article of the batch that classified to that row's zone and carries that article's fields (missing keys as `''`); added rowids continue the sequence |
| Ingestion.IngestLinks | milano_news_backend.py:65-78 | the links after a batch are the links before plus the links of the batch's classified articles |
| Ingestion.ClassifiedLinksIff | milano_news_backend.py:67-75 | a link is a classified link of the batch exactly when some article of the batch classifies and carries it |
| Ingestion.IngestWellFormed | milano_news_backend.py:33-36 | a batch keeps links unique, rowids increasing and the next rowid correct |
| Ingestion.IngestZoned | milano_news_backend.py:67-77 | when the classifier only returns zone names, every zone column stays a zone name |
| Ingestion.IngestPresent | milano_news_backend.py:70-71 | a batch whose classified links are all stored changes nothing |
| Ingestion.IngestIdempotent | milano_news_backend.py:70-71 | ingesting the same batch again, at any later time, leaves the table as the first ingestion left it |
| Ingestion.StepStores | milano_news_backend.py:67-78 | an article that classifies and whose link is new is stored by its step as the next row |
| Ingestion.FirstArticleWins | milano_news_backend.py:70-78 | a classified article whose link is new to the table and to the earlier classified articles of the batch is stored with its own fields and zone |
| Ingestion.FirstArticleOwnsLink | milano_news_backend.py:70-78 | the row holding such a link holds the first classified article with that link, not a later one (the `''` default included) |
| Ingestion.IngestCount | milano_news_backend.py:70-78 | a batch adds as many rows as it has distinct classified links not stored before |
| Ingestion.UniqueLinksCount | milano_news_backend.py:35 | with unique links there are as many stored links as rows |
| Query.InsertDescSorted | milano_news_backend.py:113-115 | inserting a row into a sequence sorted by `published_at` descending keeps it sorted |
| Query.InsertDescBound | milano_news_backend.py:113-115 | inserting a row no later than a bound keeps every row no later than the bound |
| Query.SortDesc | milano_news_backend.py:113-115 | `ORDER BY published_at DESC` yields a sorted permutation of its input |
| Query.InZone | milano_news_backend.py:115 | `WHERE zone = ?` keeps every row of the zone, as often as it occurs, and no other row |
| Query.NewsQuery | milano_news_backend.py:112-115 | the result has `min(rows, 100)` rows for `'all'` and `min(rows of the zone, 50)` otherwise; it is sorted newest first; it is drawn from the selected rows; every row is of the requested zone |
| Query.QueryKeepsNewest | milano_news_backend.py:113-115 | every selected row left out by the limit is published no later than every returned row |
| Query.LeftOutInTail | milano_news_backend.py:113-115 | a row of a sequence that its first `n` rows do not account for stands after position `n` |
| Query.QueryComplete | milano_news_backend.py:112-115 | below the limit, the result holds every selected row |
| Query.UnknownZoneIsEmpty | milano_news_backend.py:114-115 | a zone that no row carries gives an empty result |
| NewsDb.UnknownZoneNoNews | milano_news_backend.py:107-115 | in a table whose zone columns hold zone names, a zone outside the taxonomy gives an empty list, not an error |
| NewsDb.QueryItems | milano_news_backend.py:117-126 | the JSON entries built from the query's rows keep its count, its order and its zone filter |
| NewsDb.ToItems | milano_news_backend.py:117-126 | one entry per fetched row, in the same order, carrying the row's id, title, description, link, date and zone |
| NewsDb.InsertZoned | milano_news_backend.py:68-77 | inserting a row whose zone is a zone name keeps every zone column a zone name |
| NewsDb.NewsStore.constructor | milano_news_backend.py:29-38 | a fresh database has an empty `news` table whose first rowid is 1 |
| NewsDb.NewsStore.InsertOrIgnore | milano_news_backend.py:70-78 | one `INSERT OR IGNORE` changes the table as `NewsTable.InsertOrIgnore` does, and reports whether a row was added |
| NewsDb.NewsStore.IngestBatch | milano_news_backend.py:65-80 | after the loop the table is `Ingest` of the old table with `classify_article`; the schema's invariant and the zone invariant hold |
| NewsDb.NewsStore.GetNews | milano_news_backend.py:104-129 | the entries are the query's rows in order (an absent `zone` means `'all'`); their number is the limit-capped count; they are sorted newest first; all are of the requested zone |

## Left out

- `app.py` is not part of this model. It holds Flask routes, a background thread that sleeps, and calls to a `MilanoNewsCollector` class that is not defined in this repository.
- The HTTP fetch in `fetch_news` (milano_news_backend.py:42-60) is network I/O: the API-key guard, `requests.get`, the status check and JSON decoding. `IngestBatch` receives the decoded `results` list instead.
- SQLite plumbing is not modelled: `connect`, `commit`, `close`, and `CREATE TABLE IF NOT EXISTS` on an existing database. The constructor models `init_db` on a fresh database only.
- The bare `except: continue` around the insert is not modelled. The model's insert never fails.
- JSON `null` values are not modelled. An absent key reads as `''`. In the program, a `null` title or description makes the concatenation raise. That aborts the whole batch before `commit`. A `null` link is stored as SQL NULL, which `UNIQUE` does not deduplicate.
- NewsDb.NewsStore.IngestBatch: takes one clock reading `now` for the whole batch. The program calls `datetime.now()` once per inserted row, so `created_at` may differ between rows of one batch.
- Text.ToLower: lower-cases ASCII letters only. Python's `str.lower` also lower-cases non-ASCII letters (accented capitals, for instance), so the model can miss a match where a keyword meets an accented capital.
- Query.SortDesc: breaks `published_at` ties by rowid. SQLite leaves the order of tied rows unspecified. The sortedness, limit and left-out lemmas hold for any tie order; only the exact sequence relies on this choice.
- Logging (`print`), `render_template`, `jsonify`, the scheduler and `app.run` (milano_news_backend.py:99-102, 131-145) are I/O and serving. They are not modelled. `GetNews` returns the list that would be serialised.
- Rowids are modelled as one more than the last rowid. The core never deletes rows, so this is the largest rowid plus one, which is what SQLite assigns.
