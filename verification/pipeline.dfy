/** `run`: the five stages wired together, without reading the CSV files
    or writing the result. The correlation and the two TF-IDF steps are
    parameters, as in the stages that use them. */
module Pipeline {
  import opened Base
  import opened Text
  import opened Records
  import UnmetDemand
  import PriceSensitivity
  import PainPoints
  import CompetitiveGaps
  import Compose

  /** The whole pipeline on already-loaded tables. */
  function Run(sales: seq<Transaction>, searches: seq<SearchLogEntry>, reviews: seq<Review>,
               catalog: seq<CatalogItem>, competitors: seq<CompetitorRecord>,
               corr: PriceSensitivity.Correlation, fits: PainPoints.VocabularyFits,
               ranked: PainPoints.TermRanking): (r: Result<seq<Opportunity>>)
    ensures |sales| == 0 ==> r == Failure(MissingColumn("product_id"))
    ensures r.Failure? <==> |sales| == 0 || NoSharedCategory(catalog, competitors)
    ensures r.Success? ==>
              forall c :: c in Compose.OutCategories(r.value) <==>
                exists k :: 0 <= k < |searches| && Compose.MapCat(searches[k].query) == c
  {
    var unmet := UnmetDemand.UnmetDemand(searches);
    var price := PriceSensitivity.PriceSens(sales, corr);
    var gaps := CompetitiveGaps.CompGaps(catalog, competitors);
    PriceSensitivity.PriceSensEmpty(sales, corr);
    CompetitiveGaps.CompGapsEmpty(catalog, competitors);
    GapRowsDistinct(catalog, competitors);
    UnmetCategoriesAreSearchCategories(searches);
    Compose.Compose(unmet, price, PainPoints.PainPoints(reviews, PainPoints.DefaultTopK, fits, ranked), catalog, gaps)
  }

  /** No catalog row shares its category with a competitor row. */
  predicate NoSharedCategory(catalog: seq<CatalogItem>, competitors: seq<CompetitorRecord>) {
    forall i, j :: 0 <= i < |catalog| && 0 <= j < |competitors| ==> catalog[i].category != competitors[j].category
  }

  /** `comp_gaps` yields each category once, as `compose` needs. */
  lemma GapRowsDistinct(catalog: seq<CatalogItem>, competitors: seq<CompetitorRecord>)
    ensures Compose.GapCategoriesDistinct(CompetitiveGaps.CompGaps(catalog, competitors))
  {
    var gaps := CompetitiveGaps.CompGaps(catalog, competitors);
    forall i, j | 0 <= i < j < |gaps|
      ensures gaps[i].category != gaps[j].category
    {
      StrictlySortedDistinct(CompetitiveGaps.GapCategories(gaps), i, j);
    }
  }

  /** The categories of the per-query summary are those of the searches. */
  lemma UnmetCategoriesAreSearchCategories(searches: seq<SearchLogEntry>)
    ensures forall c :: c in Compose.QueryCategories(UnmetDemand.UnmetDemand(searches)) <==>
              exists k :: 0 <= k < |searches| && Compose.MapCat(searches[k].query) == c
  {
    var unmet := UnmetDemand.UnmetDemand(searches);
    var qc := Compose.QueryCategories(unmet);
    forall c | c in qc
      ensures exists k :: 0 <= k < |searches| && Compose.MapCat(searches[k].query) == c
    {
      var i :| 0 <= i < |qc| && qc[i] == c;
      assert unmet[i].query in UnmetDemand.Queries(searches);
      var k :| 0 <= k < |searches| && UnmetDemand.Queries(searches)[k] == unmet[i].query;
      assert Compose.MapCat(searches[k].query) == c;
    }
    forall c | exists k :: 0 <= k < |searches| && Compose.MapCat(searches[k].query) == c
      ensures c in qc
    {
      var k :| 0 <= k < |searches| && Compose.MapCat(searches[k].query) == c;
      var i :| 0 <= i < |unmet| && unmet[i].query == searches[k].query;
      assert qc[i] == c;
    }
  }
}
