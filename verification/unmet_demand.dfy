/** `unmet_demand`: one row per distinct search query with its search
    count, its count of unmet searches (no results or no clicks), its
    add-to-cart total and the derived rates, ordered by `unmet_signal`
    from high to low. */
module UnmetDemand {
  import opened Base
  import opened Text
  import opened Sorting
  import opened Records

  /** A search is unmet when it found nothing or got no click. */
  predicate IsUnmet(e: SearchLogEntry) {
    e.resultsFound == 0 || e.clicks == 0
  }

  function QueryIs(q: string): SearchLogEntry -> bool {
    (e: SearchLogEntry) => e.query == q
  }

  function UnmetFor(q: string): SearchLogEntry -> bool {
    (e: SearchLogEntry) => e.query == q && IsUnmet(e)
  }

  function Queries(es: seq<SearchLogEntry>): seq<string> {
    Map(es, (x: SearchLogEntry) => x.query)
  }

  /** The sum of `added_to_cart` over the entries for `q`. */
  function SumAddToCart(es: seq<SearchLogEntry>, q: string): int
  {
    if |es| == 0 then 0
    else SumAddToCart(es[..|es| - 1], q) + (if es[|es| - 1].query == q then es[|es| - 1].addedToCart else 0)
  }

  /** With 0/1 flags, the add-to-cart total lies between 0 and the number of
      searches for the query. */
  lemma {:induction false} SumAddToCartBounds(es: seq<SearchLogEntry>, q: string)
    requires forall i :: 0 <= i < |es| ==> 0 <= es[i].addedToCart <= 1
    ensures 0 <= SumAddToCart(es, q) <= CountWhere(es, QueryIs(q))
  {
    if |es| > 0 {
      SumAddToCartBounds(es[..|es| - 1], q);
    }
  }

  /** The derived columns of a query's row from its three aggregates. */
  function MakeRow(q: string, searches: nat, unmet: nat, cart: int): (r: QueryDemand)
    requires 1 <= searches && unmet <= searches
    ensures r.query == q && r.searches == searches && r.unmet == unmet && r.addToCart == cart
    ensures 0.0 <= r.unmetRate <= 1.0
    ensures r.unmetRate * searches as real == unmet as real
    ensures r.conversionRate * searches as real == cart as real
    ensures 0 <= cart <= searches ==> 0.0 <= r.conversionRate <= 1.0 && 0.0 <= r.unmetSignal <= 1.0
    ensures r.unmetSignal == r.unmetRate * (1.0 - r.conversionRate)
  {
    var rate := Ratio(unmet, searches);
    var conversion := Ratio(cart, searches);
    if 0 <= cart <= searches then
      UnitProduct(rate, 1.0 - conversion);
      QueryDemand(q, searches, unmet, cart, rate, conversion, rate * (1.0 - conversion))
    else
      QueryDemand(q, searches, unmet, cart, rate, conversion, rate * (1.0 - conversion))
  }

  /** The aggregated row of one query that occurs in the log. */
  function Summarize(es: seq<SearchLogEntry>, q: string): (r: QueryDemand)
    requires q in Queries(es)
    ensures r.query == q
    ensures r.searches == CountWhere(es, QueryIs(q)) >= 1
    ensures r.unmet == CountWhere(es, UnmetFor(q)) <= r.searches
    ensures r.addToCart == SumAddToCart(es, q)
  {
    var searches := CountWhere(es, QueryIs(q));
    var unmet := CountWhere(es, UnmetFor(q));
    assert exists i :: 0 <= i < |es| && QueryIs(q)(es[i]) by {
      var i :| 0 <= i < |es| && Queries(es)[i] == q;
      assert QueryIs(q)(es[i]);
    }
    CountWherePositive(es, QueryIs(q));
    CountWhereMonotone(es, UnmetFor(q), QueryIs(q));
    MakeRow(q, searches, unmet, SumAddToCart(es, q))
  }

  function Signal(r: QueryDemand): real {
    r.unmetSignal
  }

  /** `unmet_demand(searches)`: exactly one row per distinct query, each the
      query's aggregate, ordered by signal from high to low. Groups come out
      of pandas' `groupby` in ascending query order before the sort. */
  function UnmetDemand(es: seq<SearchLogEntry>): (r: seq<QueryDemand>)
    ensures forall i, j :: 0 <= i < j < |r| ==> r[i].unmetSignal >= r[j].unmetSignal
    ensures forall i :: 0 <= i < |r| ==> r[i].query in Queries(es) && r[i] == Summarize(es, r[i].query)
    ensures forall k :: 0 <= k < |es| ==> exists i :: 0 <= i < |r| && r[i].query == es[k].query
    ensures forall i, j :: 0 <= i < j < |r| ==> r[i].query != r[j].query
  {
    var keys := SortedDistinct(Queries(es));
    var groups := seq(|keys|, i requires 0 <= i < |keys| => Summarize(es, keys[i]));
    GroupsDistinct(keys, groups);
    var r := SortDesc(groups, Signal);
    SortedGroupsFacts(es, keys, groups, r);
    r
  }

  lemma GroupsDistinct(keys: seq<string>, groups: seq<QueryDemand>)
    requires StrictlySorted(keys) && |groups| == |keys|
    requires forall i :: 0 <= i < |keys| ==> groups[i].query == keys[i]
    ensures Distinct(groups)
  {
    forall i, j | 0 <= i < j < |groups|
      ensures groups[i] != groups[j]
    {
      StrictlySortedDistinct(keys, i, j);
    }
  }

  lemma SortedGroupsFacts(es: seq<SearchLogEntry>, keys: seq<string>, groups: seq<QueryDemand>, r: seq<QueryDemand>)
    requires StrictlySorted(keys) && forall y :: y in keys <==> y in Queries(es)
    requires |groups| == |keys|
    requires forall i :: 0 <= i < |keys| ==> groups[i] == Summarize(es, keys[i])
    requires multiset(r) == multiset(groups) && Distinct(r)
    ensures forall i :: 0 <= i < |r| ==> r[i].query in Queries(es) && r[i] == Summarize(es, r[i].query)
    ensures forall k :: 0 <= k < |es| ==> exists i :: 0 <= i < |r| && r[i].query == es[k].query
    ensures forall i, j :: 0 <= i < j < |r| ==> r[i].query != r[j].query
  {
    SameElements(r, groups);
    forall i | 0 <= i < |r|
      ensures r[i].query in Queries(es) && r[i] == Summarize(es, r[i].query)
    {
      var m :| 0 <= m < |groups| && groups[m] == r[i];
      assert keys[m] in keys;
    }
    forall k | 0 <= k < |es|
      ensures exists i :: 0 <= i < |r| && r[i].query == es[k].query
    {
      assert es[k].query in Queries(es) by {
        assert Queries(es)[k] == es[k].query;
      }
      assert es[k].query in keys;
      var m :| 0 <= m < |keys| && keys[m] == es[k].query;
      assert groups[m] in r;
      var i :| 0 <= i < |r| && r[i] == groups[m];
    }
  }

  /** Every row of `unmet_demand` has at least one search, no more unmet
      searches than searches, and an unmet rate in [0, 1]; with 0/1
      add-to-cart flags the conversion rate and the signal lie in [0, 1]
      too. */
  lemma RowBounds(es: seq<SearchLogEntry>, i: nat)
    requires i < |UnmetDemand(es)|
    ensures var row := UnmetDemand(es)[i];
      && 1 <= row.searches && row.unmet <= row.searches
      && 0.0 <= row.unmetRate <= 1.0
    ensures (forall k :: 0 <= k < |es| ==> 0 <= es[k].addedToCart <= 1) ==>
      var row := UnmetDemand(es)[i];
      && 0.0 <= row.conversionRate <= 1.0
      && 0.0 <= row.unmetSignal <= 1.0
  {
    var row := UnmetDemand(es)[i];
    assert row == Summarize(es, row.query);
    if forall k :: 0 <= k < |es| ==> 0 <= es[k].addedToCart <= 1 {
      SumAddToCartBounds(es, row.query);
    }
  }

  /** The count of entries for `q` is the number of positions holding `q`. */
  lemma SearchesAreEntryCount(es: seq<SearchLogEntry>, q: string)
    ensures CountWhere(es, QueryIs(q)) == |set i: nat | i < |es| && es[i].query == q|
    ensures CountWhere(es, UnmetFor(q)) == |set i: nat | i < |es| && es[i].query == q && IsUnmet(es[i])|
  {
    CountWhereIsCardinality(es, QueryIs(q));
    CountWhereIsCardinality(es, UnmetFor(q));
    assert Positions(es, QueryIs(q)) == set i: nat | i < |es| && es[i].query == q;
    assert Positions(es, UnmetFor(q)) == set i: nat | i < |es| && es[i].query == q && IsUnmet(es[i]);
  }

  /** A single search with no results, no clicks and no add-to-cart gives
      one fully unmet query with signal 1. */
  lemma SingleUnmetSearch()
    ensures UnmetDemand([SearchLogEntry("q1", 0, 0, 0)])
            == [QueryDemand("q1", 1, 1, 0, 1.0, 0.0, 1.0)]
  {
    var es := [SearchLogEntry("q1", 0, 0, 0)];
    var r := UnmetDemand(es);
    assert es[0].query == "q1";
    assert |r| == 1 by {
      assert SortedDistinct(Queries(es)) == ["q1"];
    }
    assert r[0].query == "q1";
    assert r[0].searches == 1 && r[0].unmet == 1 && r[0].addToCart == 0 by {
      assert es[..0] == [];
    }
  }
}
