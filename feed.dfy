/**
 * One article of the feed's `results` list, as `fetch_news` receives it after
 * JSON decoding: a dictionary from which the code reads four keys with
 * `article.get(key, '')`. A key that is absent is `None` here.
 */
module Feed {
  import opened Wrappers

  datatype RawArticle = RawArticle(
    title: Option<string>,
    description: Option<string>,
    link: Option<string>,
    pubDate: Option<string>)

  /** `article.get('title', '')` */
  function TitleOf(a: RawArticle): string { a.title.GetOr("") }

  /** `article.get('description', '')` */
  function DescriptionOf(a: RawArticle): string { a.description.GetOr("") }

  /** `article.get('link', '')`: the natural key of a stored article. */
  function LinkOf(a: RawArticle): string { a.link.GetOr("") }

  /** `article.get('pubDate', '')`: stored as `published_at`. */
  function PubDateOf(a: RawArticle): string { a.pubDate.GetOr("") }
}
