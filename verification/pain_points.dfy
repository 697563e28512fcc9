/** `pain_points`: for every product with a review rated 3 or lower, the
    top terms of its low-rated review text. The low-rated texts of each
    product are joined with spaces into one document; the term weighting
    (scikit-learn's `TfidfVectorizer` over single words and word pairs,
    English stop words removed, 100 terms kept) is the pair of parameters
    `fits` and `ranked`. */
module PainPoints {
  import opened Base
  import opened Text
  import opened Records

  /** The `top_k` default of `pain_points`. */
  const DefaultTopK: nat := 8

  /** Ratings at or below this are low. */
  const LowRatingMax: int := 3

  /** Whether the vectorizer can build a vocabulary from the documents;
      when it cannot, fitting raises `ValueError`. */
  type VocabularyFits = seq<string> -> bool

  /** The vocabulary terms for document `i` of the corpus, highest weight
      first (`argsort()[::-1]` over the document's TF-IDF row). */
  type TermRanking = (seq<string>, nat) -> seq<string>

  predicate IsLow(rv: Review) {
    rv.rating <= LowRatingMax
  }

  function LowOf(pid: string): Review -> bool {
    (rv: Review) => rv.productId == pid && IsLow(rv)
  }

  function LowReviews(reviews: seq<Review>): seq<Review> {
    Filter(reviews, IsLow)
  }

  function ReviewIds(reviews: seq<Review>): seq<string> {
    Map(reviews, (x: Review) => x.productId)
  }

  function Texts(reviews: seq<Review>): seq<string> {
    Map(reviews, (x: Review) => x.reviewText)
  }

  /** The product's document: its low-rated review texts, in input order,
      joined with single spaces. */
  function Document(reviews: seq<Review>, pid: string): string {
    Join(Texts(Filter(reviews, LowOf(pid))), " ")
  }

  function Documents(reviews: seq<Review>, ids: seq<string>): (docs: seq<string>)
    ensures |docs| == |ids| && forall i :: 0 <= i < |ids| ==> docs[i] == Document(reviews, ids[i])
  {
    seq(|ids|, i requires 0 <= i < |ids| => Document(reviews, ids[i]))
  }

  /** The product ids of the low-rated reviews, ascending (pandas' `groupby`). */
  function PainIds(reviews: seq<Review>): (ids: seq<string>)
    ensures StrictlySorted(ids)
    ensures forall pid :: pid in ids <==> pid in ReviewIds(LowReviews(reviews))
  {
    SortedDistinct(ReviewIds(LowReviews(reviews)))
  }

  /** The at most `topK` best terms of document `i`. */
  function TopTerms(docs: seq<string>, i: nat, topK: nat, ranked: TermRanking): (ts: seq<string>)
    ensures |ts| <= topK && |ts| <= |ranked(docs, i)|
    ensures ts == ranked(docs, i)[..|ts|]
    ensures |ts| == topK || ts == ranked(docs, i)
  {
    Take(ranked(docs, i), topK)
  }

  function ProductIdsOf(rows: seq<ProductPain>): seq<string> {
    Map(rows, (x: ProductPain) => x.productId)
  }

  /** `pain_points(reviews, top_k)`: empty when no review is rated 3 or
      lower, or when no vocabulary can be built; otherwise exactly one row
      per product with a low-rated review, ascending by product, carrying
      the ", "-joined top terms of that product's document. */
  function PainPoints(reviews: seq<Review>, topK: nat, fits: VocabularyFits, ranked: TermRanking): (r: seq<ProductPain>)
    ensures |LowReviews(reviews)| == 0 ==> r == []
    ensures !fits(Documents(reviews, PainIds(reviews))) ==> r == []
    ensures |LowReviews(reviews)| > 0 && fits(Documents(reviews, PainIds(reviews))) ==>
              ProductIdsOf(r) == PainIds(reviews)
    ensures forall i :: 0 <= i < |r| ==>
              r[i].painPoints == Join(TopTerms(Documents(reviews, PainIds(reviews)), i, topK, ranked), ", ")
  {
    var low := LowReviews(reviews);
    if |low| == 0 then []
    else
      var ids := PainIds(reviews);
      var docs := Documents(reviews, ids);
      if !fits(docs) then []
      else
        var r := seq(|ids|, i requires 0 <= i < |ids| =>
          ProductPain(ids[i], Join(TopTerms(docs, i, topK, ranked), ", ")));
        assert ProductIdsOf(r) == ids;
        r
  }

  /** Products in the result are exactly the products with a low-rated
      review (when a vocabulary exists). */
  lemma PainRowsAreLowRatedProducts(reviews: seq<Review>, topK: nat, fits: VocabularyFits, ranked: TermRanking, pid: string)
    requires fits(Documents(reviews, PainIds(reviews)))
    ensures pid in ProductIdsOf(PainPoints(reviews, topK, fits, ranked))
            <==> exists k :: 0 <= k < |reviews| && reviews[k].productId == pid && reviews[k].rating <= 3
  {
    var low := LowReviews(reviews);
    if exists k :: 0 <= k < |reviews| && reviews[k].productId == pid && reviews[k].rating <= 3 {
      var k :| 0 <= k < |reviews| && reviews[k].productId == pid && reviews[k].rating <= 3;
      assert reviews[k] in low;
      var j :| 0 <= j < |low| && low[j] == reviews[k];
      assert ReviewIds(low)[j] == pid;
    }
    if pid in ProductIdsOf(PainPoints(reviews, topK, fits, ranked)) {
      assert |low| > 0;
      assert pid in ReviewIds(low);
      var j :| 0 <= j < |low| && ReviewIds(low)[j] == pid;
      assert low[j] in reviews;
    }
  }

  /** A product's document is built from exactly its low-rated reviews:
      as many texts as it has reviews rated 3 or lower, each one the text
      of such a review, and the text of every such review among them; the
      j-th text is that of the j-th such review in input order. */
  lemma DocumentSources(reviews: seq<Review>, pid: string)
    ensures var ts := Texts(Filter(reviews, LowOf(pid)));
      && |ts| == |set k: nat | k < |reviews| && reviews[k].productId == pid && reviews[k].rating <= 3|
      && (forall j :: 0 <= j < |ts| ==>
            exists k :: 0 <= k < |reviews| && reviews[k].productId == pid && reviews[k].rating <= 3
                        && reviews[k].reviewText == ts[j])
      && (forall k :: 0 <= k < |reviews| && reviews[k].productId == pid && reviews[k].rating <= 3 ==>
            reviews[k].reviewText in ts)
      && var ks := PositionsInOrder(reviews, LowOf(pid));
         |ts| == |ks| && forall j :: 0 <= j < |ts| ==> ts[j] == reviews[ks[j]].reviewText
  {
    DocumentCount(reviews, pid);
    DocumentSound(reviews, pid);
    DocumentComplete(reviews, pid);
    DocumentOrder(reviews, pid);
  }

  lemma DocumentCount(reviews: seq<Review>, pid: string)
    ensures |Texts(Filter(reviews, LowOf(pid)))|
            == |set k: nat | k < |reviews| && reviews[k].productId == pid && reviews[k].rating <= 3|
  {
    CountWhereIsCardinality(reviews, LowOf(pid));
    assert Positions(reviews, LowOf(pid))
        == set k: nat | k < |reviews| && reviews[k].productId == pid && reviews[k].rating <= 3;
  }

  lemma DocumentSound(reviews: seq<Review>, pid: string)
    ensures var ts := Texts(Filter(reviews, LowOf(pid)));
            forall j :: 0 <= j < |ts| ==>
              exists k :: 0 <= k < |reviews| && reviews[k].productId == pid && reviews[k].rating <= 3
                          && reviews[k].reviewText == ts[j]
  {
    var rows := Filter(reviews, LowOf(pid));
    forall j | 0 <= j < |rows|
      ensures exists k :: 0 <= k < |reviews| && reviews[k].productId == pid && reviews[k].rating <= 3
                          && reviews[k].reviewText == rows[j].reviewText
    {
      assert LowOf(pid)(rows[j]);
      var k :| 0 <= k < |reviews| && reviews[k] == rows[j];
    }
    var ts := Texts(rows);
    assert |ts| == |rows| && forall j :: 0 <= j < |ts| ==> ts[j] == rows[j].reviewText;
  }

  lemma DocumentComplete(reviews: seq<Review>, pid: string)
    ensures forall k :: 0 <= k < |reviews| && reviews[k].productId == pid && reviews[k].rating <= 3 ==>
              reviews[k].reviewText in Texts(Filter(reviews, LowOf(pid)))
  {
    var rows := Filter(reviews, LowOf(pid));
    forall k | 0 <= k < |reviews| && reviews[k].productId == pid && reviews[k].rating <= 3
      ensures reviews[k].reviewText in Texts(rows)
    {
      assert LowOf(pid)(reviews[k]);
      var j :| 0 <= j < |rows| && rows[j] == reviews[k];
      assert Texts(rows)[j] == reviews[k].reviewText;
    }
  }

  lemma DocumentOrder(reviews: seq<Review>, pid: string)
    ensures var ts := Texts(Filter(reviews, LowOf(pid)));
            var ks := PositionsInOrder(reviews, LowOf(pid));
            |ts| == |ks| && forall j :: 0 <= j < |ts| ==> ts[j] == reviews[ks[j]].reviewText
  {
    FilterFollowsPositions(reviews, LowOf(pid));
  }

  /** When every review is rated above 3 the result is empty. */
  lemma NoLowReviewsNoRows(reviews: seq<Review>, topK: nat, fits: VocabularyFits, ranked: TermRanking)
    requires forall k :: 0 <= k < |reviews| ==> reviews[k].rating > 3
    ensures PainPoints(reviews, topK, fits, ranked) == []
  {
    CountWherePositive(reviews, IsLow);
  }
}
