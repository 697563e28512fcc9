/** `price_sens`: one row per product with its price sensitivity, the
    correlation of discount and units over the product's transactions, or
    exactly 0.0 when either column takes a single value for that product.
    The correlation itself (`np.corrcoef`) is the parameter `corr`. */
module PriceSensitivity {
  import opened Base
  import opened Text
  import opened Records

  /** Pearson correlation of discount against units, as computed by numpy. */
  type Correlation = (seq<real>, seq<int>) -> real

  /** The product's transactions, in input order. */
  function RowsOf(sales: seq<Transaction>, pid: string): seq<Transaction> {
    Filter(sales, (t: Transaction) => t.productId == pid)
  }

  function Discounts(rows: seq<Transaction>): seq<real> {
    Map(rows, (x: Transaction) => x.discountPct)
  }

  function Units(rows: seq<Transaction>): seq<int> {
    Map(rows, (x: Transaction) => x.units)
  }

  function ProductIds(sales: seq<Transaction>): seq<string> {
    Map(sales, (x: Transaction) => x.productId)
  }

  function PricedIds(rows: seq<ProductPrice>): seq<string> {
    Map(rows, (x: ProductPrice) => x.productId)
  }

  /** pandas' `nunique() > 1`: the column holds two different values. */
  predicate HasTwoDistinct<T(==)>(xs: seq<T>) {
    |xs| > 0 && exists i | 0 <= i < |xs| :: xs[i] != xs[0]
  }

  /** `HasTwoDistinct` is exactly "more than one distinct value". */
  lemma HasTwoDistinctIsNunique<T>(xs: seq<T>)
    ensures HasTwoDistinct(xs) <==> |set x | x in xs| > 1
  {
    var vals := set x | x in xs;
    if HasTwoDistinct(xs) {
      var i :| 0 <= i < |xs| && xs[i] != xs[0];
      assert {xs[0], xs[i]} <= vals;
      assert |{xs[0], xs[i]}| == 2;
      SubsetCardinality({xs[0], xs[i]}, vals);
    } else if |xs| > 0 {
      assert vals == {xs[0]} by {
        forall x | x in vals ensures x == xs[0] {
          var k :| 0 <= k < |xs| && xs[k] == x;
        }
      }
    } else {
      assert vals == {};
    }
  }

  lemma SubsetCardinality<T>(a: set<T>, b: set<T>)
    requires a <= b
    ensures |a| <= |b|
  {
    assert b == a + (b - a);
  }

  /** The guard of `price_sens`: the correlation only when both columns
      vary, 0.0 otherwise. */
  function Sensitivity(rows: seq<Transaction>, corr: Correlation): (r: real)
    ensures !HasTwoDistinct(Discounts(rows)) || !HasTwoDistinct(Units(rows)) ==> r == 0.0
    ensures HasTwoDistinct(Discounts(rows)) && HasTwoDistinct(Units(rows)) ==>
              r == corr(Discounts(rows), Units(rows))
  {
    if HasTwoDistinct(Discounts(rows)) && HasTwoDistinct(Units(rows)) then
      corr(Discounts(rows), Units(rows))
    else
      0.0
  }

  /** One row per product id of `ids`, in that order. */
  function PriceRows(sales: seq<Transaction>, ids: seq<string>, corr: Correlation): (r: seq<ProductPrice>)
    ensures |r| == |ids|
    ensures forall i :: 0 <= i < |r| ==>
              r[i].productId == ids[i] && r[i].priceSensitivity == Sensitivity(RowsOf(sales, ids[i]), corr)
  {
    if |ids| == 0 then []
    else [ProductPrice(ids[0], Sensitivity(RowsOf(sales, ids[0]), corr))] + PriceRows(sales, ids[1..], corr)
  }

  /** `price_sens(sales)`: exactly one row per product that has a
      transaction, in ascending product order (pandas' `groupby`), each
      carrying the guarded correlation of that product's transactions. */
  function PriceSens(sales: seq<Transaction>, corr: Correlation): (r: seq<ProductPrice>)
    ensures StrictlySorted(PricedIds(r))
    ensures forall pid :: pid in PricedIds(r) <==> pid in ProductIds(sales)
    ensures forall i :: 0 <= i < |r| ==>
              r[i].priceSensitivity == Sensitivity(RowsOf(sales, r[i].productId), corr)
  {
    var ids := SortedDistinct(ProductIds(sales));
    var r := PriceRows(sales, ids, corr);
    assert PricedIds(r) == ids;
    r
  }

  /** Only an empty transaction table gives an empty result. */
  lemma PriceSensEmpty(sales: seq<Transaction>, corr: Correlation)
    ensures |PriceSens(sales, corr)| == 0 <==> |sales| == 0
  {
    var r := PriceSens(sales, corr);
    if |sales| > 0 {
      assert ProductIds(sales)[0] in ProductIds(sales);
      assert ProductIds(sales)[0] in PricedIds(r);
    }
  }

  /** A product whose discount, or whose units, never change gets exactly
      0.0, whatever the correlation would say; when both vary it gets the
      correlation. */
  lemma ConstantColumnGivesZero(rows: seq<Transaction>, corr: Correlation)
    ensures (forall j :: 0 <= j < |rows| ==> rows[j].discountPct == rows[0].discountPct)
            || (forall j :: 0 <= j < |rows| ==> rows[j].units == rows[0].units)
            ==> Sensitivity(rows, corr) == 0.0
    ensures (exists j :: 0 <= j < |rows| && rows[j].discountPct != rows[0].discountPct)
            && (exists j :: 0 <= j < |rows| && rows[j].units != rows[0].units)
            ==> Sensitivity(rows, corr) == corr(Discounts(rows), Units(rows))
  {
  }

  /** Three identical transactions of one product: sensitivity 0.0. */
  lemma ConstantProductExample(corr: Correlation)
    ensures var t := Transaction("P1", 10.0, 5);
      PriceSens([t, t, t], corr) == [ProductPrice("P1", 0.0)]
  {
    var t := Transaction("P1", 10.0, 5);
    var sales := [t, t, t];
    assert ProductIds(sales) == ["P1", "P1", "P1"];
    var ids := SortedDistinct(ProductIds(sales));
    assert ids == ["P1"] by {
      assert "P1" in ProductIds(sales);
      StrictlySortedUnique(ids, ["P1"]);
    }
    var rows := RowsOf(sales, "P1");
    assert forall j :: 0 <= j < |rows| ==> rows[j] == t;
    ConstantColumnGivesZero(rows, corr);
    assert PriceRows(sales, ids, corr) == [ProductPrice("P1", 0.0)];
  }
}
