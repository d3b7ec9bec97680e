/**
 * Worked classifications of concrete headlines. Each keyword list is checked
 * against the lower-cased text separately, away from the whole taxonomy.
 */
module ZoneExamples {
  import opened Wrappers
  import opened Text
  import opened Feed
  import opened Zones

  /** The keyword lists of the first three zones, spelled out; the lemmas
      below that use them show they are `MilanoZones[0].1`, `[1].1` and `[2].1`. */
  const NavigliKeywords: seq<string> :=
    ["navigli", "naviglio", "canale", "alzaia", "ripa ticinese", "porta genova", "darsena navigli"]
  const DarsenaKeywords: seq<string> :=
    ["darsena", "porta ticinese sud", "zona darsena", "ripa porta ticinese"]
  const PortaTicineseKeywords: seq<string> :=
    ["porta ticinese", "ticinese", "colonne san lorenzo", "san lorenzo", "corso ticinese"]

  /** None of the lower-cased `navigli` keywords occurs in "porta ticinese sud ":
      each has a letter that the text lacks where it would have to stand. */
  lemma NavigliKeywordsAbsent()
    ensures forall k :: 0 <= k < |NavigliKeywords| ==> !Occurs(ToLower(NavigliKeywords[k]), "porta ticinese sud ")
  {
    forall k | 0 <= k < |NavigliKeywords| ensures !Occurs(ToLower(NavigliKeywords[k]), "porta ticinese sud ") {
      NoLowerOccurrence(NavigliKeywords[k], "porta ticinese sud ", [2, 2, 4, 1, 2, 6, 9][k]);
    }
  }

  lemma NavigliMissesPortaTicineseSud()
    ensures !ZoneHit(NavigliKeywords, "porta ticinese sud ")
  {
    NavigliKeywordsAbsent();
  }

  lemma DarsenaHitsPortaTicineseSud()
    ensures ZoneHit(DarsenaKeywords, "porta ticinese sud ")
  {
    OccurrenceAt("porta ticinese sud", "porta ticinese sud ", 0);
    ToLowerOfLower("porta ticinese sud");
    assert DarsenaKeywords[1] == "porta ticinese sud";
  }

  lemma PortaTicineseHitsPortaTicineseSud()
    ensures ZoneHit(PortaTicineseKeywords, "porta ticinese sud ")
  {
    OccurrenceAt("porta ticinese", "porta ticinese sud ", 0);
    ToLowerOfLower("porta ticinese");
    assert PortaTicineseKeywords[0] == "porta ticinese";
  }

  lemma PortaTicineseSudText()
    ensures ArticleText(RawArticle(Some("Porta Ticinese sud"), None, None, None)) == "porta ticinese sud "
  {
  }

  /** "porta ticinese sud" is a keyword of `darsena` and contains "porta ticinese",
      a keyword of `porta_ticinese`; `darsena` is defined first and wins. */
  lemma PortaTicineseSudIsDarsena()
    ensures var a := RawArticle(Some("Porta Ticinese sud"), None, None, None);
            ZoneHit(MilanoZones[2].1, ArticleText(a)) && ClassifyArticle(a) == Some("darsena")
  {
    PortaTicineseSudText();
    assert MilanoZones[0] == ("navigli", NavigliKeywords);
    assert MilanoZones[1] == ("darsena", DarsenaKeywords);
    assert MilanoZones[2] == ("porta_ticinese", PortaTicineseKeywords);
    NavigliMissesPortaTicineseSud();
    DarsenaHitsPortaTicineseSud();
    PortaTicineseHitsPortaTicineseSud();
  }

  lemma NavigliInFestaText()
    ensures ArticleText(RawArticle(Some("Navigli in festa"), None, None, None)) == "navigli in festa "
  {
  }

  lemma NavigliHitsNavigliInFesta()
    ensures ZoneHit(NavigliKeywords, "navigli in festa ")
  {
    OccurrenceAt("navigli", "navigli in festa ", 0);
    ToLowerOfLower("navigli");
    assert NavigliKeywords[0] == "navigli";
  }

  /** "Navigli in festa" is lower-cased before the search and hits `navigli`,
      the first zone. */
  lemma NavigliInFesta()
    ensures ClassifyArticle(RawArticle(Some("Navigli in festa"), None, None, None)) == Some("navigli")
  {
    NavigliInFestaText();
    NavigliHitsNavigliInFesta();
    assert MilanoZones[0] == ("navigli", NavigliKeywords);
  }
}
