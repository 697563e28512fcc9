# Opportunity pipeline — a Dafny model

This project models the scoring pipeline of a small retail-analytics tool,
`src/opportunity_pipeline.py`. The pipeline reads five tables: transactions,
search logs, reviews, the catalog and competitor features. It produces one
ranked table of product categories, each with an opportunity score and a
recommended-actions text. The model covers the five stages and how they are
wired together:

- `unmet_demand`: per-query search statistics, sorted by unmet signal
  (`UnmetDemand`).
- `price_sens`: one price-sensitivity row per product, with the
  constant-column guard (`PriceSensitivity`).
- `pain_points`: the low-rating filter, the empty-table guards and the
  per-product documents. The TF-IDF ranking is a parameter (`PainPoints`).
- `comp_gaps`: the feature tokenising, the set difference on unstripped
  tokens, stripping, sorting and the 200-character cap (`CompetitiveGaps`).
- `compose`, split in two:
  - `Compose`: the keyword lookup `map_cat`, the per-category sums,
    means and joins, the left merges and the descending sort.
  - `Scoring`: min-max normalisation, the weighted score and the `rec`
    text.
- The call chain of `run` without its file I/O (`Pipeline`).

Supporting modules:

- `Base`: `Option`, `Result`, sums and counting.
- `Text`: lower-casing of ASCII letters, `replace`, `split`, `join`, `strip`,
  substring search and code-point string order.
- `Sorting`: a stable descending sort by a real key.
- `Records`: one datatype per table.

Modelling choices:

- pandas NaN is `Option`.
- A pandas `KeyError` is `Failure(MissingColumn(..))`. Merging against a
  table built from zero rows has no key column.
  - An empty transaction table fails on `product_id`.
  - Otherwise, no category shared between catalog and competitors fails on
    `category`.
- Floating-point values are exact `real`s.
- The score counts a present `missing_features` cell even when it is empty
  (line 80), while `rec` proposes only non-empty text (line 83). `comp_gaps`
  produces such an empty cell for every shared category whose competitors
  list nothing new. The model keeps this as written
  (`Compose.EmptyGapCountsButIsNotProposed`).

Feature lists with bare commas are not split into features, because line 57
splits only on the two-character separator `", "`. A catalog listing
`blender,timer` against a competitor listing `blender,timer,wifi` in the same
category is therefore one token against another, and the gap is the whole
`blender,timer,wifi` (`CompetitiveGaps.BareCommaExample`).

## Model

| member | source | states |
|---|---|---|
| UnmetDemand.Summarize | src/opportunity_pipeline.py:18-23 | a query's row counts exactly its entries (`searches` ≥ 1), the unmet ones among them (`results_found==0` or `clicks==0`, never more than `searches`) and its add-to-cart total |
| UnmetDemand.MakeRow | src/opportunity_pipeline.py:21-23 | `unmet_rate·searches == unmet`, `conversion_rate·searches == add_to_cart`, `unmet_signal == unmet_rate·(1-conversion_rate)`; rate in [0,1]; with 0/1 cart flags conversion and signal in [0,1] |
| UnmetDemand.UnmetDemand | src/opportunity_pipeline.py:17-24 | exactly one row per distinct query (every entry's query has a row, no query twice), each the summary of that query's entries, rows non-increasing in `unmet_signal` |
| UnmetDemand.RowBounds | src/opportunity_pipeline.py:19-23 | every returned row has `0 ≤ unmet ≤ searches`, rate in [0,1], and with 0/1 cart flags conversion and signal in [0,1] |
| UnmetDemand.SumAddToCartBounds | src/opportunity_pipeline.py:20 | with 0/1 add-to-cart flags a query's cart total lies between 0 and its entry count |
| UnmetDemand.SearchesAreEntryCount | src/opportunity_pipeline.py:19-20 | `searches` and `unmet` are the sizes of the sets of matching entry positions |
| UnmetDemand.SingleUnmetSearch | src/opportunity_pipeline.py:17-24 | one entry with zero results and zero clicks gives searches 1, unmet 1, rate 1.0, conversion 0.0, signal 1.0 |
| PriceSensitivity.Sensitivity | src/opportunity_pipeline.py:29-31 | 0.0 unless both discount and units take two distinct values, and the correlation when they do |
| PriceSensitivity.HasTwoDistinctIsNunique | src/opportunity_pipeline.py:30 | the guard's "two distinct values" is `nunique() > 1` |
| PriceSensitivity.PriceSens | src/opportunity_pipeline.py:26-33 | exactly one row per product id that occurs in the transactions, ascending by id, each carrying the guarded correlation of that product's transactions |
| PriceSensitivity.PriceSensEmpty | src/opportunity_pipeline.py:27-33 | the result is empty exactly when the transaction table is |
| PriceSensitivity.ConstantColumnGivesZero | src/opportunity_pipeline.py:29-31 | a product whose discount or whose units never change gets exactly 0.0; when both vary it gets the correlation |
| PriceSensitivity.ConstantProductExample | src/opportunity_pipeline.py:26-33 | three identical transactions of one product give that product sensitivity 0.0 |
| PainPoints.PainIds | src/opportunity_pipeline.py:36-38 | the ascending, duplicate-free ids of the products with a review rated 3 or lower |
| Base.FilterFollowsPositions | src/opportunity_pipeline.py:36 | a boolean row filter keeps exactly the satisfying rows, each once and in input order: its j-th row is the row at the j-th satisfying position |
| PainPoints.TopTerms | src/opportunity_pipeline.py:47 | the first `top_k` terms of the document's ranking (all of them when there are fewer) |
| PainPoints.PainPoints | src/opportunity_pipeline.py:35-49 | empty when no review is rated ≤ 3 or no vocabulary can be built; otherwise one row per low-rated product, ascending, whose text is the ", "-join of its document's top terms |
| PainPoints.PainRowsAreLowRatedProducts | src/opportunity_pipeline.py:36-38 | when a vocabulary can be built, a product has a row iff it has a review rated 3 or lower |
| PainPoints.DocumentSources | src/opportunity_pipeline.py:36-38 | a product's document joins exactly its low-rated reviews' texts: as many as it has reviews rated 3 or lower, the j-th being the text of the j-th such review in input order, so each used once and none from elsewhere |
| PainPoints.NoLowReviewsNoRows | src/opportunity_pipeline.py:36-37 | when every review is rated above 3 the result is empty |
| CompetitiveGaps.FeatureText | src/opportunity_pipeline.py:52-53 | a present feature cell is lower-cased, a missing one becomes "" |
| CompetitiveGaps.OurFeatures | src/opportunity_pipeline.py:52-57 | one lower-cased features text per catalog row of the category: as many as there are such rows, every such row's text, and nothing from another category |
| CompetitiveGaps.TheirFeatures | src/opportunity_pipeline.py:53-58 | one lower-cased key-features text per competitor row of the category: as many as there are such rows, every such row's text, and nothing from another category |
| CompetitiveGaps.Tokens | src/opportunity_pipeline.py:57-58 | at least one token, none containing ", ", and joining them with ", " gives the joined texts with "/" replaced by a space |
| CompetitiveGaps.GapListMeaning | src/opportunity_pipeline.py:57-60 | t is in the gap list iff t is non-empty and is the stripped form of a competitor token whose unstripped form is not a catalog token; every entry is already stripped |
| CompetitiveGaps.GapList | src/opportunity_pipeline.py:59-60 | the gap list is strictly ascending, so sorted and duplicate-free |
| CompetitiveGaps.MissingFeatures | src/opportunity_pipeline.py:60 | at most 200 characters, a prefix of the ", "-joined gap list, and all of it when shorter than 200 |
| CompetitiveGaps.MissingFeaturesRoundTrip | src/opportunity_pipeline.py:59-60 | no gap gives ""; a gap list that fits in 200 characters is recovered exactly by splitting the cell on ", " |
| CompetitiveGaps.SharedCategories | src/opportunity_pipeline.py:55 | ascending, duplicate-free, and c is in it iff c is a catalog category and a competitor category |
| CompetitiveGaps.CompGaps | src/opportunity_pipeline.py:51-61 | one row per category present in both tables, ascending, each with the missing features of that category's catalog and competitor texts, at most 200 characters |
| CompetitiveGaps.CompGapsEmpty | src/opportunity_pipeline.py:55 | the result is empty exactly when no catalog row shares its category with a competitor row |
| CompetitiveGaps.BareCommaExample | src/opportunity_pipeline.py:57-60 | catalog "blender,timer" against competitor "blender,timer,wifi" in one category gives the gap "blender,timer,wifi" |
| CompetitiveGaps.DifferenceBeforeStrip | src/opportunity_pipeline.py:57-59 | catalog "timer, wifi" against competitor "wifi , timer" gives "wifi": the unstripped "wifi " is not a catalog token |
| Compose.MatchFrom | src/opportunity_pipeline.py:67-68 | the first keyword position at or after `from` whose keyword occurs in the text, or none when no later keyword occurs |
| Compose.MapCatMeaning | src/opportunity_pipeline.py:64-69 | "Unknown" iff no keyword occurs in the lower-cased query; otherwise the category of the first keyword, in lookup order, that occurs |
| Compose.WatchQueryIsWearables | src/opportunity_pipeline.py:64-69 | "best smart watch" maps to "Wearables" |
| Compose.NoiseQueryIsUnknown | src/opportunity_pipeline.py:64-69 | "random noise term" maps to "Unknown" |
| Compose.Categories | src/opportunity_pipeline.py:70-71 | the grouped categories are ascending, duplicate-free and exactly the mapped categories of the queries |
| Compose.CategorySignalIsSum | src/opportunity_pipeline.py:71 | a category's signal is the sum of the signals of the queries mapped to it |
| Compose.VolumesPartitionSearches | src/opportunity_pipeline.py:71 | summing search volumes over distinct categories that cover every query gives the total search count |
| Compose.SearchVolumesAddUp | src/opportunity_pipeline.py:70-71 | the `search_volume` column of the composed table adds up to the total search count |
| Compose.Joined | src/opportunity_pipeline.py:72-75 | the values a left join against the catalog files under a category: each comes from a row whose product the catalog files there, and there are none exactly when no row's product is filed there |
| Compose.JoinedComplete | src/opportunity_pipeline.py:72-75 | every row whose product the catalog files under the category contributes its value to the join |
| Compose.JoinedSize | src/opportunity_pipeline.py:72-75 | the join has exactly one value per matching (row, catalog row) pair: the sum over the rows of their matching catalog rows |
| Compose.JoinedSegments | src/opportunity_pipeline.py:72-75 | the join keeps the left table's row order: the copies of row i form one block, one copy per matching catalog row, right after the blocks of all earlier rows |
| Compose.PriceValuesComplete | src/opportunity_pipeline.py:72-73 | a category's price values number one per joined row and include the sensitivity of every product filed under it |
| Compose.CategoryPriceIsWeightedMean | src/opportunity_pipeline.py:72-73 | a category's price is the mean over all its joined rows, i.e. each product's sensitivity weighted by how many catalog rows file it there, and missing when no row joins |
| Compose.PainTextsComplete | src/opportunity_pipeline.py:74-75 | a category's pain texts number one per joined row and include the text of every product with pain points filed under it |
| Compose.Mean | src/opportunity_pipeline.py:73 | no mean of nothing; otherwise mean · count == sum |
| Compose.MeanWithin | src/opportunity_pipeline.py:73 | the mean lies between any bounds of the values |
| Compose.CategoryPriceMeaning | src/opportunity_pipeline.py:72-73 | a category has a price iff some priced product is filed under it, and the price keeps the bounds of the product sensitivities |
| Compose.CategoryPain | src/opportunity_pipeline.py:74-75 | absent iff no pain text is filed under the category; otherwise the ", "-joined texts cut to 200 characters: the whole join when it is shorter, else its first 200 characters |
| Compose.CategoryPainMeaning | src/opportunity_pipeline.py:74-75 | a category has pain points iff some product with pain points is filed under it |
| Compose.GapFor | src/opportunity_pipeline.py:76 | absent iff no gap row has the category; otherwise the missing features of a row with it |
| Compose.Scored | src/opportunity_pipeline.py:77-80 | scoring changes only the score column, which is the weighted score of the row's normalised signal, normalised filled-in price and gap presence |
| Compose.Compose | src/opportunity_pipeline.py:63-89 | fails on `product_id` with no price rows, else on `category` with no gap rows, else succeeds with one row per mapped query category, no category twice, sorted by score descending, each row the merged data of its category with a score in [0,1] |
| Compose.ComposeIsSortedTable | src/opportunity_pipeline.py:88-89 | the output is a permutation of the scored table |
| Compose.ScoreFollowsInputs | src/opportunity_pipeline.py:77-80 | a row whose signal, filled-in price and gap presence are all at least another's scores at least as high |
| Compose.SingleCategoryScore | src/opportunity_pipeline.py:77-80 | with a single category the score is 0.20 with a gap row and 0 without, whatever the raw values |
| Compose.EmptyGapCountsButIsNotProposed | src/opportunity_pipeline.py:80-83 | an empty missing-features cell earns the gap weight but no "Add:" idea |
| Scoring.NormValue | src/opportunity_pipeline.py:79 | in [0,1]; 0.0 when max == min; otherwise `(v-min)/(max-min)`, 0 at the minimum and 1 at the maximum |
| Scoring.NormValueMonotone | src/opportunity_pipeline.py:79 | normalising keeps order, and strict order when the column varies |
| Scoring.Normalize | src/opportunity_pipeline.py:77-79 | one value per row, each in [0,1] and each the normalised value of its entry against the column minimum and maximum |
| Scoring.NormalizeMonotone | src/opportunity_pipeline.py:79 | any two values of the column keep their order and strict order |
| Scoring.NormalizeExtremes | src/opportunity_pipeline.py:77-79 | a column without variance gives all zeros; a varying one reaches both 0 and 1 |
| Scoring.Score | src/opportunity_pipeline.py:80 | with normalised inputs the score is in [0,1], at least 0.20 with a gap and at most 0.80 without |
| Scoring.ScoreMonotone | src/opportunity_pipeline.py:80 | the score never falls when an input rises |
| Scoring.Ideas | src/opportunity_pipeline.py:82-85 | one idea per filled cell and per high price (at most three), each of its form, "Add:" first and the promotion idea last |
| Scoring.IdeasDistinct | src/opportunity_pipeline.py:83-85 | no two ideas are equal |
| Scoring.PriceIdeaIffHigh | src/opportunity_pipeline.py:85 | the promotion idea is present iff the price sensitivity is present and above 0.1 |
| Scoring.RecommendedActions | src/opportunity_pipeline.py:86 | the `[:300]` cut of the "; "-joined ideas: the whole join when it fits in 300 characters, otherwise its first 300 characters; containing every idea when the join fits |
| Scoring.NoIdeasNoText | src/opportunity_pipeline.py:82-86 | the text is empty iff no cell is filled and the price is not high |
| Scoring.PriceIdeaCutOff | src/opportunity_pipeline.py:85-86 | when the "Add:" and "Address:" ideas already fill 300 characters, the text is the same whatever the price |
| Sorting.SortDesc | src/opportunity_pipeline.py:88-89 | a permutation of the input, non-increasing in the key, duplicate-free when the input is |
| Text.SplitJoinCommaSpace | src/opportunity_pipeline.py:57 | splitting on ", " undoes joining with ", " for parts without ", " |
| Text.Lower | src/opportunity_pipeline.py:66 | `str.lower()` on ASCII: same length, each upper-case letter replaced in place by its lower-case letter, every other character kept |
| Text.StripMeaning | src/opportunity_pipeline.py:59 | `strip` keeps a contiguous piece with no whitespace at either end, cuts away only whitespace, and is empty iff the text is all whitespace |
| Text.StripIdempotent | src/opportunity_pipeline.py:59 | stripping twice equals stripping once |
| Pipeline.Run | src/opportunity_pipeline.py:93 | fails on `product_id` iff there are no transactions, fails at all iff additionally no category is shared; on success the categories are exactly the mapped categories of the searched queries |
| Pipeline.GapRowsDistinct | src/opportunity_pipeline.py:55 | the gap table never lists a category twice |
| Pipeline.UnmetCategoriesAreSearchCategories | src/opportunity_pipeline.py:17-20 | the categories of the per-query summary are exactly those of the searched queries |

## Left out

- `load` and the CSV writing and printing in `run` (src/opportunity_pipeline.py:8-15, 94-97) are file I/O. `Pipeline.Run` takes the five tables as arguments.
- `app.py` is not part of this model. It is a Streamlit user interface that runs the pipeline and plots the result.
- The correlation `np.corrcoef` (line 31) is the parameter `corr`; only its guard is modelled.
- scikit-learn's `TfidfVectorizer` (lines 39-47) becomes two parameters: `fits`, whether a vocabulary can be built (otherwise `ValueError`), and `ranked`, each document's terms by descending weight.
- Floating point: rates, means, normalised values and scores are exact `real`s, with no rounding and no NaN arithmetic beyond `Option`.
- `str.lower` is modelled on ASCII letters only; other letters are left unchanged. `str.strip` uses Python's full set of whitespace characters.
- Sorting.SortDesc: it is a stable sort. pandas' default sort is not stable, so the order among equal scores is not promised; the contracts state only the permutation and the descending order.
- Compose.Compose: it requires the gap table to list each category at most once. `comp_gaps` always produces such a table (`Pipeline.GapRowsDistinct`); with duplicates pandas' merge would repeat rows.
- Compose.Compose: the order of the output columns (line 88) is not modelled; every row is an `Opportunity` record with those eight fields.
- CompetitiveGaps.CompGaps: when every `features` cell of a non-empty catalog (or every `key_features` cell of a non-empty competitor table) is missing, pandas reads a float column and `.str.lower()` at lines 52-53 raises `AttributeError`. The model reads each missing cell as "" and goes on, because column types are not modelled (`Records.CatalogItem` holds an optional string per row).
- PainPoints.PainPoints: a missing `review_text` on a review rated 3 or lower makes `" ".join` at line 38 raise `TypeError`. `Records.Review` holds the text as a plain string, so the model has no such input.
- pandas dtype details are not modelled: integer versus float columns, boolean `added_to_cart`, and non-string feature cells other than missing ones.
