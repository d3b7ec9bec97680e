/**
 * The zone taxonomy of Milan (`MILANO_ZONES`) and the keyword classifier
 * (`classify_article`). The taxonomy is an ordered list, because the
 * classifier returns the FIRST zone, in definition order, one of whose
 * keywords occurs in the lower-cased text of the article.
 */
module Zones {
  import opened Wrappers
  import opened Text
  import opened Feed

  /** Zone names paired with their keyword phrases, in definition order. */
  type Taxonomy = seq<(string, seq<string>)>

  const MilanoZones: Taxonomy := [
    ("navigli", ["navigli", "naviglio", "canale", "alzaia", "ripa ticinese", "porta genova", "darsena navigli"]),
    ("darsena", ["darsena", "porta ticinese sud", "zona darsena", "ripa porta ticinese"]),
    ("porta_ticinese", ["porta ticinese", "ticinese", "colonne san lorenzo", "san lorenzo", "corso ticinese"]),
    ("via_tortona", ["via tortona", "tortona", "zona tortona", "superstudio"]),
    ("via_cassala", ["via cassala", "cassala", "zona cassala"]),
    ("via_bligny", ["via bligny", "bligny", "zona bligny"]),
    ("piazza_napoli", ["piazza napoli", "p.za napoli", "zona napoli"]),
    ("corso_san_gottardo", ["corso san gottardo", "san gottardo", "zona san gottardo"]),
    ("via_giuseppe_meda", ["via giuseppe meda", "giuseppe meda", "via meda", "meda"])
  ]

  /** `z` names a zone of `tax`. */
  predicate IsZoneOf(tax: Taxonomy, z: string) {
    exists i :: 0 <= i < |tax| && tax[i].0 == z
  }

  /** `z` is the name of one of the nine zones of Milan. */
  predicate IsZone(z: string) {
    IsZoneOf(MilanoZones, z)
  }

  /** No two zones share a name, so a name determines its position. */
  predicate DistinctNames(tax: Taxonomy) {
    forall i, j :: 0 <= i < j < |tax| ==> tax[i].0 != tax[j].0
  }

  /** The inner loop of `classify_article`: does `keyword.lower() in text`
      hold for some keyword of the zone? */
  function ZoneHit(keywords: seq<string>, text: string): (hit: bool)
    ensures hit <==> exists k :: 0 <= k < |keywords| && Occurs(ToLower(keywords[k]), text)
  {
    if keywords == [] then false
    else Occurs(ToLower(keywords[0]), text) || ZoneHit(keywords[1..], text)
  }

  /** The outer loop of `classify_article`: the first zone of `tax` that the
      text hits, or `None` when it hits none. */
  function FirstZone(tax: Taxonomy, text: string): (r: Option<string>)
    ensures r.None? <==> forall i :: 0 <= i < |tax| ==> !ZoneHit(tax[i].1, text)
    ensures r.Some? ==> exists i :: 0 <= i < |tax| && tax[i].0 == r.value
                                    && ZoneHit(tax[i].1, text)
                                    && forall j :: 0 <= j < i ==> !ZoneHit(tax[j].1, text)
  {
    if tax == [] then None
    else if ZoneHit(tax[0].1, text) then Some(tax[0].0)
    else
      var r := FirstZone(tax[1..], text);
      assert forall i :: 1 <= i < |tax| ==> tax[1..][i - 1] == tax[i];
      if r.Some? then
        var i :| 0 <= i < |tax[1..]| && tax[1..][i].0 == r.value && ZoneHit(tax[1..][i].1, text)
                 && forall j :: 0 <= j < i ==> !ZoneHit(tax[1..][j].1, text);
        assert tax[i + 1].0 == r.value && ZoneHit(tax[i + 1].1, text);
        assert forall j :: 0 <= j < i + 1 ==> !ZoneHit(tax[j].1, text) by {
          forall j | 0 <= j < i + 1 ensures !ZoneHit(tax[j].1, text) {
            if j > 0 { assert tax[j] == tax[1..][j - 1]; }
          }
        }
        r
      else
        r
  }

  /** The text `classify_article` searches: `(title + ' ' + description).lower()`. */
  function ArticleText(a: RawArticle): string {
    ToLower(TitleOf(a) + " " + DescriptionOf(a))
  }

  /** `classify_article` over the taxonomy `tax`: the first zone with a keyword
      in the article's text; `None` exactly when no keyword of any zone occurs. */
  function Classify(tax: Taxonomy, a: RawArticle): (r: Option<string>)
    ensures r.None? <==> forall i, k :: 0 <= i < |tax| && 0 <= k < |tax[i].1| ==>
                                          !Occurs(ToLower(tax[i].1[k]), ArticleText(a))
    ensures r.Some? ==> IsZoneOf(tax, r.value)
    ensures r.Some? ==> exists i, k :: 0 <= i < |tax| && tax[i].0 == r.value
                                       && 0 <= k < |tax[i].1|
                                       && Occurs(ToLower(tax[i].1[k]), ArticleText(a))
  {
    FirstZone(tax, ArticleText(a))
  }

  /** `classify_article(article)` with `MILANO_ZONES`. */
  function ClassifyArticle(a: RawArticle): (r: Option<string>)
    ensures r.Some? ==> IsZone(r.value)
  {
    Classify(MilanoZones, a)
  }

  /** The nine zone names are pairwise different. */
  lemma MilanoZonesDistinct()
    ensures DistinctNames(MilanoZones)
  {
  }

  /** With distinct names, a result `tax[i].0` pins the match at position `i`. */
  lemma {:induction false} FirstZoneAt(tax: Taxonomy, text: string, i: int)
    requires DistinctNames(tax)
    requires 0 <= i < |tax| && FirstZone(tax, text) == Some(tax[i].0)
    ensures ZoneHit(tax[i].1, text)
    ensures forall j :: 0 <= j < i ==> !ZoneHit(tax[j].1, text)
  {
    var i' :| 0 <= i' < |tax| && tax[i'].0 == tax[i].0 && ZoneHit(tax[i'].1, text)
              && forall j :: 0 <= j < i' ==> !ZoneHit(tax[j].1, text);
    assert i' == i;
  }

  /** First match wins: when the classifier returns the zone at position `i`,
      that zone has a keyword in the text and no zone defined before it has. */
  lemma ClassifyFirstMatch(a: RawArticle, i: int)
    requires 0 <= i < |MilanoZones|
    ensures ClassifyArticle(a) == Some(MilanoZones[i].0) ==>
              && ZoneHit(MilanoZones[i].1, ArticleText(a))
              && forall j :: 0 <= j < i ==> !ZoneHit(MilanoZones[j].1, ArticleText(a))
  {
    if ClassifyArticle(a) == Some(MilanoZones[i].0) {
      MilanoZonesDistinct();
      FirstZoneAt(MilanoZones, ArticleText(a), i);
    }
  }

  /** Zone order breaks ties: when the text hits two zones, the classifier never
      returns the later one. */
  lemma EarlierZoneWins(a: RawArticle, i: int, j: int)
    requires 0 <= i < j < |MilanoZones|
    ensures ZoneHit(MilanoZones[i].1, ArticleText(a)) && ZoneHit(MilanoZones[j].1, ArticleText(a)) ==>
              ClassifyArticle(a) != Some(MilanoZones[j].0)
  {
    ClassifyFirstMatch(a, j);
  }
}
