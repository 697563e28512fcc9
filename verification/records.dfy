/** The records the pipeline reads and produces, one datatype per table.
    Column names follow the source's CSV headers; a value pandas may hold
    as NaN is an `Option`. */
module Records {
  import opened Base

  // ---------------------------------------------------------------------
  // Inputs

  /** A row of `transactions.csv`. */
  datatype Transaction = Transaction(productId: string, discountPct: real, units: int)

  /** A row of `search_logs.csv`; `addedToCart` is summed as an integer. */
  datatype SearchLogEntry = SearchLogEntry(query: string, resultsFound: int, clicks: int, addedToCart: int)

  /** A row of `reviews.csv`. */
  datatype Review = Review(productId: string, rating: int, reviewText: string)

  /** A row of `catalog.csv`; `features` may be missing. */
  datatype CatalogItem = CatalogItem(productId: string, category: string, name: string, features: Option<string>)

  /** A row of `competitors.csv`; `keyFeatures` may be missing. */
  datatype CompetitorRecord = CompetitorRecord(category: string, keyFeatures: Option<string>)

  // ---------------------------------------------------------------------
  // Per-query and per-product summaries

  /** One row of `unmet_demand`'s result. */
  datatype QueryDemand = QueryDemand(
    query: string,
    searches: nat,
    unmet: nat,
    addToCart: int,
    unmetRate: real,
    conversionRate: real,
    unmetSignal: real)

  /** One row of `price_sens`'s result. */
  datatype ProductPrice = ProductPrice(productId: string, priceSensitivity: real)

  /** One row of `pain_points`'s result. */
  datatype ProductPain = ProductPain(productId: string, painPoints: string)

  /** One row of `comp_gaps`'s result. */
  datatype CategoryGap = CategoryGap(category: string, missingFeatures: string)

  // ---------------------------------------------------------------------
  // Output

  /** One row of the final table, columns in output order. The three
      optional columns are NaN in pandas when a left join finds nothing. */
  datatype Opportunity = Opportunity(
    category: string,
    searchVolume: int,
    unmetSignal: real,
    priceSensitivity: Option<real>,
    missingFeatures: Option<string>,
    painPoints: Option<string>,
    opportunityScore: real,
    recommendedActions: string)
}
