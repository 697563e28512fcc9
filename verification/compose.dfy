/** `compose`: the final opportunity table. Queries are mapped to
    categories by keyword; per category the unmet signals and search counts
    are summed, product price sensitivities and pain points are attached
    through the catalog, the gap row is looked up, two columns are
    min-max normalised into a score, and the rows are ordered by score from
    high to low. */
module Compose {
  import opened Base
  import opened Text
  import opened Sorting
  import opened Records
  import opened Scoring

  /** The category of a query no keyword matches. */
  const UnknownCategory: string := "Unknown"

  /** The keyword lookup, in the order it is tried. */
  const Keywords: seq<(string, string)> := [
    ("watch", "Wearables"),
    ("vacuum", "Home"),
    ("air fryer", "Kitchen"),
    ("lantern", "Outdoors"),
    ("treadmill", "Fitness"),
    ("cat", "Pets"),
    ("pet", "Pets"),
    ("ice maker", "Kitchen")
  ]

  /** Length cap of a category's joined pain points. */
  const MaxPainChars: nat := 200

  const PainSeparator: string := ", "

  // ---------------------------------------------------------------------
  // Category mapping (`map_cat`)

  /** The first keyword, from position `from` on, that occurs in `ql`. */
  function MatchFrom(ql: string, from: nat): (r: Option<nat>)
    requires from <= |Keywords|
    ensures r.Some? ==> from <= r.value < |Keywords| && Contains(ql, Keywords[r.value].0)
    ensures r.Some? ==> forall j :: from <= j < r.value ==> !Contains(ql, Keywords[j].0)
    ensures r.None? ==> forall j :: from <= j < |Keywords| ==> !Contains(ql, Keywords[j].0)
    decreases |Keywords| - from
  {
    if from == |Keywords| then None
    else if Contains(ql, Keywords[from].0) then Some(from)
    else MatchFrom(ql, from + 1)
  }

  /** `map_cat(q)`: the category of the first keyword contained in the
      lower-cased query, or "Unknown" when none is. */
  function MapCat(q: string): string
  {
    match MatchFrom(Lower(q), 0)
    case Some(j) => Keywords[j].1
    case None => UnknownCategory
  }

  /** A query is "Unknown" exactly when no keyword occurs in its lower-cased
      text; otherwise it gets the category of the first keyword, in lookup
      order, that occurs. */
  lemma MapCatMeaning(q: string)
    ensures MapCat(q) == UnknownCategory <==> forall j :: 0 <= j < |Keywords| ==> !Contains(Lower(q), Keywords[j].0)
    ensures MapCat(q) != UnknownCategory ==>
              exists j :: 0 <= j < |Keywords| && MapCat(q) == Keywords[j].1 && Contains(Lower(q), Keywords[j].0)
                          && forall i :: 0 <= i < j ==> !Contains(Lower(q), Keywords[i].0)
  {
  }

  /** A needle with a character the haystack lacks does not occur in it. */
  lemma AbsentChar(hay: string, needle: string, k: nat)
    requires k < |needle| && needle[k] !in hay
    ensures !Contains(hay, needle)
  {
    forall i | 0 <= i <= |hay| - |needle|
      ensures !OccursAt(hay, needle, i)
    {
      assert hay[i..i + |needle|][k] == hay[i + k];
    }
  }

  /** "best smart watch" is a Wearables query. */
  lemma WatchQueryIsWearables()
    ensures MapCat("best smart watch") == "Wearables"
  {
    var ql := "best smart watch";
    assert Lower(ql) == ql;
    assert ql[11..16] == "watch";
    assert OccursAt(ql, "watch", 11);
  }

  /** "random noise term" matches no keyword. */
  lemma NoiseQueryIsUnknown()
    ensures MapCat("random noise term") == UnknownCategory
  {
    NoiseQueryLower();
    NoiseQueryMatchesNothing();
    MapCatMeaning("random noise term");
  }

  lemma NoiseQueryLower()
    ensures Lower("random noise term") == "random noise term"
  {
  }

  lemma NoiseQueryMatchesNothing()
    ensures forall j :: 0 <= j < |Keywords| ==> !Contains("random noise term", Keywords[j].0)
  {
    NoiseQueryMissesFirstHalf();
    NoiseQueryMissesSecondHalf();
  }

  lemma NoiseQueryMissesFirstHalf()
    ensures !Contains("random noise term", "watch") && !Contains("random noise term", "vacuum")
    ensures !Contains("random noise term", "air fryer") && !Contains("random noise term", "lantern")
  {
    var ql := "random noise term";
    AbsentChar(ql, "watch", 0);
    AbsentChar(ql, "vacuum", 0);
    AbsentChar(ql, "air fryer", 4);
    AbsentChar(ql, "lantern", 0);
  }

  lemma NoiseQueryMissesSecondHalf()
    ensures !Contains("random noise term", "treadmill") && !Contains("random noise term", "cat")
    ensures !Contains("random noise term", "pet") && !Contains("random noise term", "ice maker")
  {
    var ql := "random noise term";
    AbsentChar(ql, "treadmill", 7);
    AbsentChar(ql, "cat", 0);
    AbsentChar(ql, "pet", 0);
    AbsentChar(ql, "ice maker", 1);
  }

  // ---------------------------------------------------------------------
  // Demand per category (`unmet_cat`)

  function QueryCategories(unmet: seq<QueryDemand>): (cs: seq<string>)
    ensures |cs| == |unmet| && forall i :: 0 <= i < |unmet| ==> cs[i] == MapCat(unmet[i].query)
  {
    seq(|unmet|, i requires 0 <= i < |unmet| => MapCat(unmet[i].query))
  }

  /** The categories of the table, ascending as `groupby` yields them. */
  function Categories(unmet: seq<QueryDemand>): (cs: seq<string>)
    ensures StrictlySorted(cs)
    ensures forall c :: c in cs <==> c in QueryCategories(unmet)
  {
    SortedDistinct(QueryCategories(unmet))
  }

  /** The summed unmet signal of the queries mapped to `c`. */
  function CategorySignal(unmet: seq<QueryDemand>, c: string): real
  {
    if |unmet| == 0 then 0.0
    else
      var last := unmet[|unmet| - 1];
      CategorySignal(unmet[..|unmet| - 1], c) + (if MapCat(last.query) == c then last.unmetSignal else 0.0)
  }

  /** The summed search count of the queries mapped to `c`. */
  function CategoryVolume(unmet: seq<QueryDemand>, c: string): int
  {
    if |unmet| == 0 then 0
    else
      var last := unmet[|unmet| - 1];
      CategoryVolume(unmet[..|unmet| - 1], c) + (if MapCat(last.query) == c then last.searches else 0)
  }

  function InCategory(c: string): QueryDemand -> bool {
    (r: QueryDemand) => MapCat(r.query) == c
  }

  function SignalsOf(rows: seq<QueryDemand>): seq<real> {
    Map(rows, (x: QueryDemand) => x.unmetSignal)
  }

  /** The category's signal is the plain sum over the category's queries:
      summed, not averaged, so a category with more queries collects more. */
  lemma {:induction false} CategorySignalIsSum(unmet: seq<QueryDemand>, c: string)
    ensures CategorySignal(unmet, c) == SumReal(SignalsOf(Filter(unmet, InCategory(c))))
  {
    if |unmet| > 0 {
      var init := unmet[..|unmet| - 1];
      var last := unmet[|unmet| - 1];
      CategorySignalIsSum(init, c);
      var before := Filter(init, InCategory(c));
      if InCategory(c)(last) {
        assert Filter(unmet, InCategory(c)) == before + [last];
        SumSignalsStep(before, last);
      } else {
        assert Filter(unmet, InCategory(c)) == before;
      }
    }
  }

  lemma SumSignalsStep(rows: seq<QueryDemand>, x: QueryDemand)
    ensures SumReal(SignalsOf(rows + [x])) == SumReal(SignalsOf(rows)) + x.unmetSignal
  {
    var ss := SignalsOf(rows + [x]);
    assert ss[..|rows|] == SignalsOf(rows);
  }

  lemma {:induction false} SumVolumesOfNothing(cs: seq<string>)
    ensures SumVolumes([], cs) == 0
  {
    if |cs| > 0 {
      SumVolumesOfNothing(cs[..|cs| - 1]);
    }
  }

  /** Every search lands in exactly one category: over a list holding each
      category once, the volumes add up to all searches. */
  lemma {:induction false} VolumesPartitionSearches(unmet: seq<QueryDemand>, cs: seq<string>)
    requires forall i :: 0 <= i < |unmet| ==> MapCat(unmet[i].query) in cs
    requires forall i, j :: 0 <= i < j < |cs| ==> cs[i] != cs[j]
    ensures SumVolumes(unmet, cs) == TotalSearches(unmet)
  {
    if |unmet| > 0 {
      var init := unmet[..|unmet| - 1];
      var last := unmet[|unmet| - 1];
      assert unmet == init + [last];
      assert forall i :: 0 <= i < |init| ==> init[i] == unmet[i];
      assert MapCat(last.query) in cs;
      VolumesPartitionSearches(init, cs);
      VolumesStep(init, last, cs);
    } else {
      SumVolumesOfNothing(cs);
    }
  }

  /** The volumes of the categories of `cs`, added up. */
  function SumVolumes(unmet: seq<QueryDemand>, cs: seq<string>): int
  {
    if |cs| == 0 then 0 else SumVolumes(unmet, cs[..|cs| - 1]) + CategoryVolume(unmet, cs[|cs| - 1])
  }

  function TotalSearches(unmet: seq<QueryDemand>): int
  {
    if |unmet| == 0 then 0 else TotalSearches(unmet[..|unmet| - 1]) + unmet[|unmet| - 1].searches
  }

  /** One more query adds its searches to the one listed category it maps
      to. */
  lemma {:induction false} VolumesStep(init: seq<QueryDemand>, last: QueryDemand, cs: seq<string>)
    requires forall i, j :: 0 <= i < j < |cs| ==> cs[i] != cs[j]
    ensures SumVolumes(init + [last], cs)
            == SumVolumes(init, cs) + (if MapCat(last.query) in cs then last.searches else 0)
  {
    var u := init + [last];
    assert u[..|u| - 1] == init;
    if |cs| > 0 {
      var front := cs[..|cs| - 1];
      assert forall i, j :: 0 <= i < j < |front| ==> front[i] != front[j];
      VolumesStep(init, last, front);
      var c := cs[|cs| - 1];
      assert cs == front + [c];
      assert MapCat(last.query) in cs <==> MapCat(last.query) in front || MapCat(last.query) == c;
      if MapCat(last.query) == c {
        assert c !in front by {
          forall i | 0 <= i < |front|
            ensures front[i] != c
          {
            assert cs[i] != cs[|cs| - 1];
          }
        }
      }
    }
  }

  // ---------------------------------------------------------------------
  // Price and pain points per category (`price_cat`, `pain_cat`)

  function ItemIs(pid: string, c: string): CatalogItem -> bool {
    (item: CatalogItem) => item.productId == pid && item.category == c
  }

  /** How many catalog rows give product `pid` the category `c`: the
      number of rows the left join produces for that pair. */
  function Matches(catalog: seq<CatalogItem>, pid: string, c: string): nat {
    CountWhere(catalog, ItemIs(pid, c))
  }

  /** Some catalog row gives product `pid` the category `c`. */
  predicate Paired(catalog: seq<CatalogItem>, pid: string, c: string) {
    exists k :: 0 <= k < |catalog| && catalog[k].productId == pid && catalog[k].category == c
  }

  lemma MatchesPositive(catalog: seq<CatalogItem>, pid: string, c: string)
    ensures Matches(catalog, pid, c) > 0 <==> Paired(catalog, pid, c)
  {
    CountWherePositive(catalog, ItemIs(pid, c));
  }

  function Repeat<T>(x: T, n: nat): (r: seq<T>)
    ensures |r| == n && forall i :: 0 <= i < n ==> r[i] == x
  {
    seq(n, _ => x)
  }

  /** The values a left join of `rows` with the catalog files under
      category `c`: each row's value once per catalog row that gives the
      row's product that category, in row order. */
  function Joined<R, T>(rows: seq<R>, id: R -> string, val: R -> T, catalog: seq<CatalogItem>, c: string): (vs: seq<T>)
    ensures forall k :: 0 <= k < |vs| ==>
              exists i :: 0 <= i < |rows| && vs[k] == val(rows[i]) && Matches(catalog, id(rows[i]), c) > 0
    ensures |vs| == 0 <==> forall i :: 0 <= i < |rows| ==> Matches(catalog, id(rows[i]), c) == 0
  {
    if |rows| == 0 then []
    else
      var init := rows[..|rows| - 1];
      var last := rows[|rows| - 1];
      assert forall i :: 0 <= i < |init| ==> init[i] == rows[i];
      Joined(init, id, val, catalog, c) + Repeat(val(last), Matches(catalog, id(last), c))
  }

  /** The number of rows the left join produces: over all rows, the number
      of catalog rows that give the row's product category `c`. */
  function JoinSize<R>(rows: seq<R>, id: R -> string, catalog: seq<CatalogItem>, c: string): nat {
    if |rows| == 0 then 0
    else Matches(catalog, id(rows[0]), c) + JoinSize(rows[1..], id, catalog, c)
  }

  /** Every row whose product the catalog files under `c` contributes its
      value. */
  lemma {:induction false} JoinedComplete<R, T>(rows: seq<R>, id: R -> string, val: R -> T,
                                               catalog: seq<CatalogItem>, c: string, i: nat)
    requires i < |rows| && Paired(catalog, id(rows[i]), c)
    ensures val(rows[i]) in Joined(rows, id, val, catalog, c)
  {
    var n := |rows| - 1;
    var init := rows[..n];
    var tail := Repeat(val(rows[n]), Matches(catalog, id(rows[n]), c));
    assert Joined(rows, id, val, catalog, c) == Joined(init, id, val, catalog, c) + tail;
    if i == n {
      MatchesPositive(catalog, id(rows[n]), c);
      assert tail[0] == val(rows[i]);
    } else {
      assert init[i] == rows[i];
      JoinedComplete(init, id, val, catalog, c, i);
    }
  }

  /** The join yields exactly one value per matching (row, catalog row)
      pair. */
  lemma {:induction false} JoinedSize<R, T>(rows: seq<R>, id: R -> string, val: R -> T, catalog: seq<CatalogItem>, c: string)
    ensures |Joined(rows, id, val, catalog, c)| == JoinSize(rows, id, catalog, c)
  {
    if |rows| > 0 {
      var n := |rows| - 1;
      JoinedSize(rows[..n], id, val, catalog, c);
      JoinSizeSnoc(rows[..n], rows[n], id, catalog, c);
      assert rows[..n] + [rows[n]] == rows;
    }
  }

  lemma {:induction false} JoinSizeSnoc<R>(rows: seq<R>, x: R, id: R -> string, catalog: seq<CatalogItem>, c: string)
    ensures JoinSize(rows + [x], id, catalog, c) == JoinSize(rows, id, catalog, c) + Matches(catalog, id(x), c)
  {
    if |rows| > 0 {
      assert (rows + [x])[1..] == rows[1..] + [x];
      JoinSizeSnoc(rows[1..], x, id, catalog, c);
    }
  }

  /** The join keeps the rows' order: the copies of row `i` sit together,
      right after those of every earlier row. */
  lemma {:induction false} JoinedSegments<R, T>(rows: seq<R>, id: R -> string, val: R -> T,
                                               catalog: seq<CatalogItem>, c: string, i: nat)
    requires i < |rows|
    ensures JoinSize(rows[..i + 1], id, catalog, c) == JoinSize(rows[..i], id, catalog, c) + Matches(catalog, id(rows[i]), c)
    ensures JoinSize(rows[..i + 1], id, catalog, c) <= |Joined(rows, id, val, catalog, c)|
    ensures Joined(rows, id, val, catalog, c)[JoinSize(rows[..i], id, catalog, c) .. JoinSize(rows[..i + 1], id, catalog, c)]
            == Repeat(val(rows[i]), Matches(catalog, id(rows[i]), c))
  {
    var n := |rows| - 1;
    var init := rows[..n];
    var vs := Joined(init, id, val, catalog, c);
    var rep := Repeat(val(rows[n]), Matches(catalog, id(rows[n]), c));
    JoinedStep(rows, id, val, catalog, c);
    JoinedSize(init, id, val, catalog, c);
    assert rows[..i + 1] == rows[..i] + [rows[i]];
    JoinSizeSnoc(rows[..i], rows[i], id, catalog, c);
    var lo := JoinSize(rows[..i], id, catalog, c);
    var hi := JoinSize(rows[..i + 1], id, catalog, c);
    if i == n {
      assert rows[..i] == init;
      assert lo == |vs| && hi == |vs| + |rep|;
      SliceOfAppend(vs, rep, lo, hi);
    } else {
      assert init[..i] == rows[..i] && init[..i + 1] == rows[..i + 1] && init[i] == rows[i];
      JoinedSegments(init, id, val, catalog, c, i);
      SliceOfAppend(vs, rep, lo, hi);
    }
  }

  lemma SliceOfAppend<T>(a: seq<T>, b: seq<T>, lo: nat, hi: nat)
    requires lo <= hi <= |a| + |b|
    ensures hi <= |a| ==> (a + b)[lo..hi] == a[lo..hi]
    ensures lo == |a| ==> (a + b)[lo..hi] == b[..hi - lo]
  {
  }

  lemma JoinedStep<R, T>(rows: seq<R>, id: R -> string, val: R -> T, catalog: seq<CatalogItem>, c: string)
    requires |rows| > 0
    ensures var n := |rows| - 1;
            Joined(rows, id, val, catalog, c)
            == Joined(rows[..n], id, val, catalog, c) + Repeat(val(rows[n]), Matches(catalog, id(rows[n]), c))
  {
  }

  function PriceId(p: ProductPrice): string { p.productId }
  function SensitivityOf(p: ProductPrice): real { p.priceSensitivity }
  function PainId(p: ProductPain): string { p.productId }
  function PainText(p: ProductPain): string { p.painPoints }

  /** The sensitivities the joined table files under category `c`, one per
      matching (price row, catalog row) pair. */
  function PriceValues(price: seq<ProductPrice>, catalog: seq<CatalogItem>, c: string): seq<real> {
    Joined(price, PriceId, SensitivityOf, catalog, c)
  }

  /** The pain-point texts the joined table files under category `c`. */
  function PainTexts(pain: seq<ProductPain>, catalog: seq<CatalogItem>, c: string): seq<string> {
    Joined(pain, PainId, PainText, catalog, c)
  }

  /** The sum of the sensitivities over the joined rows: each product's
      sensitivity weighted by the number of catalog rows filing it under
      `c`. */
  function WeightedSensitivity(price: seq<ProductPrice>, catalog: seq<CatalogItem>, c: string): real {
    if |price| == 0 then 0.0
    else Weight(price[0], catalog, c) + WeightedSensitivity(price[1..], catalog, c)
  }

  /** A product's share of the joined sum: its sensitivity once per
      catalog row filing it under `c`. */
  function Weight(x: ProductPrice, catalog: seq<CatalogItem>, c: string): real {
    x.priceSensitivity * Matches(catalog, x.productId, c) as real
  }

  /** A category's price is the mean over all its joined rows: the
      match-weighted mean of the product sensitivities, and missing when no
      row joins. */
  lemma CategoryPriceIsWeightedMean(price: seq<ProductPrice>, catalog: seq<CatalogItem>, c: string)
    ensures var n := JoinSize(price, PriceId, catalog, c);
            CategoryPrice(price, catalog, c)
            == if n == 0 then None else Some(WeightedSensitivity(price, catalog, c) / n as real)
  {
    JoinedSize(price, PriceId, SensitivityOf, catalog, c);
    PriceValuesSum(price, catalog, c);
  }

  lemma {:induction false} PriceValuesSum(price: seq<ProductPrice>, catalog: seq<CatalogItem>, c: string)
    ensures SumReal(PriceValues(price, catalog, c)) == WeightedSensitivity(price, catalog, c)
  {
    if |price| > 0 {
      var n := |price| - 1;
      var init := price[..n];
      var x := price[n];
      var m := Matches(catalog, x.productId, c);
      PriceValuesSnoc(price, catalog, c);
      PriceValuesSum(init, catalog, c);
      SumRealAppend(PriceValues(init, catalog, c), Repeat(x.priceSensitivity, m));
      RepeatWeight(x, catalog, c);
      assert init + [x] == price;
      WeightedSnoc(init, x, catalog, c);
    }
  }

  lemma PriceValuesSnoc(price: seq<ProductPrice>, catalog: seq<CatalogItem>, c: string)
    requires |price| > 0
    ensures var x := price[|price| - 1];
            PriceValues(price, catalog, c)
            == PriceValues(price[..|price| - 1], catalog, c) + Repeat(x.priceSensitivity, Matches(catalog, x.productId, c))
  {
  }

  lemma RepeatWeight(x: ProductPrice, catalog: seq<CatalogItem>, c: string)
    ensures SumReal(Repeat(x.priceSensitivity, Matches(catalog, x.productId, c))) == Weight(x, catalog, c)
  {
    SumRealRepeat(x.priceSensitivity, Matches(catalog, x.productId, c));
  }

  lemma {:induction false} WeightedSnoc(price: seq<ProductPrice>, x: ProductPrice, catalog: seq<CatalogItem>, c: string)
    ensures WeightedSensitivity(price + [x], catalog, c)
            == WeightedSensitivity(price, catalog, c) + Weight(x, catalog, c)
  {
    if |price| > 0 {
      assert (price + [x])[1..] == price[1..] + [x];
      WeightedSnoc(price[1..], x, catalog, c);
    }
  }

  lemma {:induction false} SumRealAppend(a: seq<real>, b: seq<real>)
    ensures SumReal(a + b) == SumReal(a) + SumReal(b)
  {
    if |b| > 0 {
      var n := |b| - 1;
      assert (a + b)[..|a| + n] == a + b[..n];
      SumRealAppend(a, b[..n]);
    } else {
      assert a + b == a;
    }
  }

  lemma {:induction false} SumRealRepeat(x: real, n: nat)
    ensures SumReal(Repeat(x, n)) == x * n as real
  {
    if n > 0 {
      assert Repeat(x, n)[..n - 1] == Repeat(x, n - 1);
      SumRealRepeat(x, n - 1);
    }
  }

  /** Every product with pain points that the catalog files under `c`
      contributes its text, and the texts number one per joined row. */
  lemma PainTextsComplete(pain: seq<ProductPain>, catalog: seq<CatalogItem>, c: string)
    ensures |PainTexts(pain, catalog, c)| == JoinSize(pain, PainId, catalog, c)
    ensures forall i :: 0 <= i < |pain| && Paired(catalog, pain[i].productId, c) ==>
              pain[i].painPoints in PainTexts(pain, catalog, c)
  {
    JoinedSize(pain, PainId, PainText, catalog, c);
    forall i | 0 <= i < |pain| && Paired(catalog, pain[i].productId, c)
      ensures pain[i].painPoints in PainTexts(pain, catalog, c)
    {
      JoinedComplete(pain, PainId, PainText, catalog, c, i);
    }
  }

  /** Likewise every priced product filed under `c` contributes its
      sensitivity. */
  lemma PriceValuesComplete(price: seq<ProductPrice>, catalog: seq<CatalogItem>, c: string)
    ensures |PriceValues(price, catalog, c)| == JoinSize(price, PriceId, catalog, c)
    ensures forall i :: 0 <= i < |price| && Paired(catalog, price[i].productId, c) ==>
              price[i].priceSensitivity in PriceValues(price, catalog, c)
  {
    JoinedSize(price, PriceId, SensitivityOf, catalog, c);
    forall i | 0 <= i < |price| && Paired(catalog, price[i].productId, c)
      ensures price[i].priceSensitivity in PriceValues(price, catalog, c)
    {
      JoinedComplete(price, PriceId, SensitivityOf, catalog, c, i);
    }
  }

  /** pandas' `mean()` of a group; a category without values has no group
      and comes out missing from the left join. */
  function Mean(xs: seq<real>): (m: Option<real>)
    ensures m.None? <==> |xs| == 0
    ensures m.Some? ==> m.value * |xs| as real == SumReal(xs)
  {
    if |xs| == 0 then None else Some(SumReal(xs) / |xs| as real)
  }

  /** A mean lies between any bounds of the values it averages. */
  lemma MeanWithin(xs: seq<real>, lo: real, hi: real)
    requires |xs| > 0
    requires forall i :: 0 <= i < |xs| ==> lo <= xs[i] <= hi
    ensures lo <= Mean(xs).value <= hi
  {
    var n := |xs| as real;
    var m := Mean(xs).value;
    SumRealBetween(xs, lo, hi);
    assert (m - lo) * n == SumReal(xs) - lo * n;
    assert (hi - m) * n == hi * n - SumReal(xs);
    ProductSign(m - lo, n);
    ProductSign(hi - m, n);
  }

  /** The category's mean price sensitivity. */
  function CategoryPrice(price: seq<ProductPrice>, catalog: seq<CatalogItem>, c: string): Option<real> {
    Mean(PriceValues(price, catalog, c))
  }

  /** The category's joined pain points, cut to 200 characters. */
  function CategoryPain(pain: seq<ProductPain>, catalog: seq<CatalogItem>, c: string): (p: Option<string>)
    ensures p.None? <==> |PainTexts(pain, catalog, c)| == 0
    ensures p.Some? ==> |p.value| <= MaxPainChars && p.value <= Join(PainTexts(pain, catalog, c), PainSeparator)
    ensures p.Some? ==> |p.value| == MaxPainChars || p.value == Join(PainTexts(pain, catalog, c), PainSeparator)
  {
    var texts := PainTexts(pain, catalog, c);
    if |texts| == 0 then None else Some(Take(Join(texts, PainSeparator), MaxPainChars))
  }

  /** A category has a price exactly when some priced product is filed
      under it by the catalog, and that price lies within the bounds of
      all product sensitivities. */
  lemma CategoryPriceMeaning(price: seq<ProductPrice>, catalog: seq<CatalogItem>, c: string, lo: real, hi: real)
    ensures CategoryPrice(price, catalog, c).Some? <==>
              exists i :: 0 <= i < |price| && Paired(catalog, price[i].productId, c)
    ensures (forall i :: 0 <= i < |price| ==> lo <= price[i].priceSensitivity <= hi)
            && CategoryPrice(price, catalog, c).Some? ==>
              lo <= CategoryPrice(price, catalog, c).value <= hi
  {
    var vs := PriceValues(price, catalog, c);
    forall i | 0 <= i < |price|
      ensures Matches(catalog, price[i].productId, c) > 0 <==> Paired(catalog, price[i].productId, c)
    {
      MatchesPositive(catalog, price[i].productId, c);
    }
    if (forall i :: 0 <= i < |price| ==> lo <= price[i].priceSensitivity <= hi) && |vs| > 0 {
      MeanWithin(vs, lo, hi);
    }
  }

  /** A category has pain points exactly when some product with pain
      points is filed under it by the catalog. */
  lemma CategoryPainMeaning(pain: seq<ProductPain>, catalog: seq<CatalogItem>, c: string)
    ensures CategoryPain(pain, catalog, c).Some? <==>
              exists i :: 0 <= i < |pain| && Paired(catalog, pain[i].productId, c)
  {
    forall i | 0 <= i < |pain|
      ensures Matches(catalog, pain[i].productId, c) > 0 <==> Paired(catalog, pain[i].productId, c)
    {
      MatchesPositive(catalog, pain[i].productId, c);
    }
  }

  // ---------------------------------------------------------------------
  // Gap lookup

  /** The gap table's cell for category `c`, missing when it has no row. */
  function GapFor(gaps: seq<CategoryGap>, c: string): (m: Option<string>)
    ensures m.None? <==> forall i :: 0 <= i < |gaps| ==> gaps[i].category != c
    ensures m.Some? ==> exists i :: 0 <= i < |gaps| && gaps[i].category == c && gaps[i].missingFeatures == m.value
  {
    if |gaps| == 0 then None
    else if gaps[0].category == c then Some(gaps[0].missingFeatures)
    else
      var rest := GapFor(gaps[1..], c);
      assert forall i :: 1 <= i < |gaps| ==> gaps[1..][i - 1] == gaps[i];
      rest
  }

  // ---------------------------------------------------------------------
  // The table

  /** A category's row before scoring (the score column still 0.0). */
  function RawRow(unmet: seq<QueryDemand>, price: seq<ProductPrice>, pain: seq<ProductPain>,
                  catalog: seq<CatalogItem>, gaps: seq<CategoryGap>, c: string): Opportunity
  {
    var s := CategoryPrice(price, catalog, c);
    var m := GapFor(gaps, c);
    var p := CategoryPain(pain, catalog, c);
    Opportunity(c, CategoryVolume(unmet, c), CategorySignal(unmet, c), s, m, p, 0.0, RecommendedActions(m, p, s))
  }

  function RawRows(unmet: seq<QueryDemand>, price: seq<ProductPrice>, pain: seq<ProductPain>,
                   catalog: seq<CatalogItem>, gaps: seq<CategoryGap>, cs: seq<string>): (rows: seq<Opportunity>)
    ensures |rows| == |cs|
    ensures forall i :: 0 <= i < |cs| ==> rows[i] == RawRow(unmet, price, pain, catalog, gaps, cs[i])
  {
    if |cs| == 0 then []
    else [RawRow(unmet, price, pain, catalog, gaps, cs[0])] + RawRows(unmet, price, pain, catalog, gaps, cs[1..])
  }

  function UnmetColumn(rows: seq<Opportunity>): seq<real> {
    Map(rows, (x: Opportunity) => x.unmetSignal)
  }

  /** The price column after `fillna(0)`. */
  function PriceColumn(rows: seq<Opportunity>): (vs: seq<real>)
    ensures |vs| == |rows| && forall i :: 0 <= i < |rows| ==> vs[i] == rows[i].priceSensitivity.GetOr(0.0)
  {
    seq(|rows|, i requires 0 <= i < |rows| => rows[i].priceSensitivity.GetOr(0.0))
  }

  /** The rows with their scores filled in from the normalised columns of
      the whole table; nothing else changes. */
  function Scored(rows: seq<Opportunity>): (r: seq<Opportunity>)
    ensures |r| == |rows|
    ensures forall i :: 0 <= i < |rows| ==> r[i].(opportunityScore := 0.0) == rows[i].(opportunityScore := 0.0)
    ensures forall i :: 0 <= i < |rows| ==>
              r[i].opportunityScore
              == Score(Normalize(UnmetColumn(rows))[i], Normalize(PriceColumn(rows))[i], rows[i].missingFeatures.Some?)
  {
    var un := Normalize(UnmetColumn(rows));
    var pn := Normalize(PriceColumn(rows));
    seq(|rows|, i requires 0 <= i < |rows| =>
      rows[i].(opportunityScore := Score(un[i], pn[i], rows[i].missingFeatures.Some?)))
  }

  function OpportunityScore(o: Opportunity): real {
    o.opportunityScore
  }

  function OutCategories(rows: seq<Opportunity>): seq<string> {
    Map(rows, (x: Opportunity) => x.category)
  }

  /** The scored table in ascending category order, before the sort. */
  function Table(unmet: seq<QueryDemand>, price: seq<ProductPrice>, pain: seq<ProductPain>,
                 catalog: seq<CatalogItem>, gaps: seq<CategoryGap>): seq<Opportunity>
  {
    Scored(RawRows(unmet, price, pain, catalog, gaps, Categories(unmet)))
  }

  /** A row of the table for category `c`: the raw row of `c` with a score
      in [0, 1] that carries the gap weight exactly when a gap row exists. */
  predicate RowOf(unmet: seq<QueryDemand>, price: seq<ProductPrice>, pain: seq<ProductPain>,
                  catalog: seq<CatalogItem>, gaps: seq<CategoryGap>, o: Opportunity)
  {
    && o.(opportunityScore := 0.0) == RawRow(unmet, price, pain, catalog, gaps, o.category)
    && 0.0 <= o.opportunityScore <= 1.0
    && (o.missingFeatures.Some? ==> GapWeight <= o.opportunityScore)
    && (o.missingFeatures.None? ==> o.opportunityScore <= UnmetWeight + PriceWeight)
  }

  lemma TableFacts(unmet: seq<QueryDemand>, price: seq<ProductPrice>, pain: seq<ProductPain>,
                   catalog: seq<CatalogItem>, gaps: seq<CategoryGap>)
    ensures OutCategories(Table(unmet, price, pain, catalog, gaps)) == Categories(unmet)
    ensures forall i :: 0 <= i < |Table(unmet, price, pain, catalog, gaps)| ==>
              RowOf(unmet, price, pain, catalog, gaps, Table(unmet, price, pain, catalog, gaps)[i])
    ensures Distinct(Table(unmet, price, pain, catalog, gaps))
  {
    var t := Table(unmet, price, pain, catalog, gaps);
    TableRows(unmet, price, pain, catalog, gaps);
    assert OutCategories(t) == Categories(unmet);
    DistinctCategoriesDistinctRows(t);
  }

  /** Rows with strictly ascending categories are pairwise different. */
  lemma DistinctCategoriesDistinctRows(t: seq<Opportunity>)
    requires StrictlySorted(OutCategories(t))
    ensures Distinct(t)
  {
    forall i, j | 0 <= i < j < |t|
      ensures t[i] != t[j]
    {
      StrictlySortedDistinct(OutCategories(t), i, j);
    }
  }

  lemma TableRows(unmet: seq<QueryDemand>, price: seq<ProductPrice>, pain: seq<ProductPain>,
                  catalog: seq<CatalogItem>, gaps: seq<CategoryGap>)
    ensures |Table(unmet, price, pain, catalog, gaps)| == |Categories(unmet)|
    ensures forall i :: 0 <= i < |Table(unmet, price, pain, catalog, gaps)| ==>
              Table(unmet, price, pain, catalog, gaps)[i].category == Categories(unmet)[i]
              && RowOf(unmet, price, pain, catalog, gaps, Table(unmet, price, pain, catalog, gaps)[i])
  {
    var cs := Categories(unmet);
    var raw := RawRows(unmet, price, pain, catalog, gaps, cs);
    var t := Table(unmet, price, pain, catalog, gaps);
    forall i | 0 <= i < |t|
      ensures t[i].category == cs[i]
      ensures RowOf(unmet, price, pain, catalog, gaps, t[i])
    {
      assert t[i].(opportunityScore := 0.0) == raw[i].(opportunityScore := 0.0);
      assert raw[i].(opportunityScore := 0.0) == raw[i];
    }
  }

  /** Categories occurring in the gap table once each, as `comp_gaps`
      produces them; the left join would repeat a category's row once per
      duplicate. */
  predicate GapCategoriesDistinct(gaps: seq<CategoryGap>) {
    forall i, j :: 0 <= i < j < |gaps| ==> gaps[i].category != gaps[j].category
  }

  /** `compose(unmet, price, pain, catalog, gaps)`. It fails with pandas'
      KeyError when the price table, then the gap table, has no columns
      (an empty `pd.DataFrame([])`); otherwise the result holds exactly one
      row per category a query maps to, each that category's aggregates,
      joins and recommendation text with a score in [0, 1], ordered by
      score from high to low. */
  function Compose(unmet: seq<QueryDemand>, price: seq<ProductPrice>, pain: seq<ProductPain>,
                   catalog: seq<CatalogItem>, gaps: seq<CategoryGap>): (r: Result<seq<Opportunity>>)
    requires GapCategoriesDistinct(gaps)
    ensures |price| == 0 ==> r == Failure(MissingColumn("product_id"))
    ensures |price| > 0 && |gaps| == 0 ==> r == Failure(MissingColumn("category"))
    ensures |price| > 0 && |gaps| > 0 ==> r.Success?
    ensures r.Success? ==> SortedDesc(r.value, OpportunityScore)
    ensures r.Success? ==> forall c :: c in OutCategories(r.value) <==> c in QueryCategories(unmet)
    ensures r.Success? ==> forall i, j :: 0 <= i < j < |r.value| ==> r.value[i].category != r.value[j].category
    ensures r.Success? ==> forall i :: 0 <= i < |r.value| ==> RowOf(unmet, price, pain, catalog, gaps, r.value[i])
  {
    if |price| == 0 then Failure(MissingColumn("product_id"))
    else if |gaps| == 0 then Failure(MissingColumn("category"))
    else
      var t := Table(unmet, price, pain, catalog, gaps);
      TableFacts(unmet, price, pain, catalog, gaps);
      var sorted := SortDesc(t, OpportunityScore);
      SortedTableFacts(unmet, price, pain, catalog, gaps, t, sorted);
      Success(sorted)
  }

  lemma SortedTableFacts(unmet: seq<QueryDemand>, price: seq<ProductPrice>, pain: seq<ProductPain>,
                         catalog: seq<CatalogItem>, gaps: seq<CategoryGap>, t: seq<Opportunity>, r: seq<Opportunity>)
    requires OutCategories(t) == Categories(unmet)
    requires forall i :: 0 <= i < |t| ==> RowOf(unmet, price, pain, catalog, gaps, t[i])
    requires multiset(r) == multiset(t) && Distinct(r)
    ensures forall c :: c in OutCategories(r) <==> c in QueryCategories(unmet)
    ensures forall i, j :: 0 <= i < j < |r| ==> r[i].category != r[j].category
    ensures forall i :: 0 <= i < |r| ==> RowOf(unmet, price, pain, catalog, gaps, r[i])
  {
    SameElements(r, t);
    SortedRowsAreRows(unmet, price, pain, catalog, gaps, t, r);
    SortedCategoriesCover(Categories(unmet), t, r);
    SortedCategoriesDistinct(Categories(unmet), t, r);
  }

  lemma SortedRowsAreRows(unmet: seq<QueryDemand>, price: seq<ProductPrice>, pain: seq<ProductPain>,
                          catalog: seq<CatalogItem>, gaps: seq<CategoryGap>, t: seq<Opportunity>, r: seq<Opportunity>)
    requires forall i :: 0 <= i < |t| ==> RowOf(unmet, price, pain, catalog, gaps, t[i])
    requires forall i :: 0 <= i < |r| ==> r[i] in t
    ensures forall i :: 0 <= i < |r| ==> RowOf(unmet, price, pain, catalog, gaps, r[i])
  {
    forall i | 0 <= i < |r|
      ensures RowOf(unmet, price, pain, catalog, gaps, r[i])
    {
      var a :| 0 <= a < |t| && t[a] == r[i];
    }
  }

  lemma SortedCategoriesCover(cs: seq<string>, t: seq<Opportunity>, r: seq<Opportunity>)
    requires OutCategories(t) == cs
    requires forall i :: 0 <= i < |r| ==> r[i] in t
    requires forall i :: 0 <= i < |t| ==> t[i] in r
    ensures forall c :: c in OutCategories(r) <==> c in cs
  {
    forall i | 0 <= i < |r|
      ensures r[i].category in cs
    {
      var a :| 0 <= a < |t| && t[a] == r[i];
      assert OutCategories(t)[a] == r[i].category;
    }
    forall c | c in cs
      ensures c in OutCategories(r)
    {
      var a :| 0 <= a < |cs| && cs[a] == c;
      assert t[a].category == c;
      assert t[a] in r;
      var i :| 0 <= i < |r| && r[i] == t[a];
      assert OutCategories(r)[i] == c;
    }
  }

  lemma SortedCategoriesDistinct(cs: seq<string>, t: seq<Opportunity>, r: seq<Opportunity>)
    requires OutCategories(t) == cs && StrictlySorted(cs)
    requires forall i :: 0 <= i < |r| ==> r[i] in t
    requires Distinct(r)
    ensures forall i, j :: 0 <= i < j < |r| ==> r[i].category != r[j].category
  {
    forall i, j | 0 <= i < j < |r|
      ensures r[i].category != r[j].category
    {
      var a :| 0 <= a < |t| && t[a] == r[i];
      var b :| 0 <= b < |t| && t[b] == r[j];
      assert a != b;
      StrictlySortedDistinct(cs, a, b);
      assert OutCategories(t)[a] == r[i].category;
      assert OutCategories(t)[b] == r[j].category;
    }
  }

  // ---------------------------------------------------------------------
  // Properties of the final table

  /** A successful result is the sorted table. */
  lemma ComposeIsSortedTable(unmet: seq<QueryDemand>, price: seq<ProductPrice>, pain: seq<ProductPain>,
                             catalog: seq<CatalogItem>, gaps: seq<CategoryGap>)
    requires GapCategoriesDistinct(gaps)
    requires Compose(unmet, price, pain, catalog, gaps).Success?
    ensures multiset(Compose(unmet, price, pain, catalog, gaps).value) == multiset(Table(unmet, price, pain, catalog, gaps))
  {
  }

  /** The table's score order agrees with its inputs: a category whose
      summed signal, filled-in price and gap presence are all at least
      another's scores at least as high. */
  lemma ScoreFollowsInputs(unmet: seq<QueryDemand>, price: seq<ProductPrice>, pain: seq<ProductPain>,
                           catalog: seq<CatalogItem>, gaps: seq<CategoryGap>, a: nat, b: nat)
    requires GapCategoriesDistinct(gaps)
    requires Compose(unmet, price, pain, catalog, gaps).Success?
    requires a < |Compose(unmet, price, pain, catalog, gaps).value| && b < |Compose(unmet, price, pain, catalog, gaps).value|
    ensures var x := Compose(unmet, price, pain, catalog, gaps).value[a];
            var y := Compose(unmet, price, pain, catalog, gaps).value[b];
            x.unmetSignal <= y.unmetSignal
            && x.priceSensitivity.GetOr(0.0) <= y.priceSensitivity.GetOr(0.0)
            && (x.missingFeatures.Some? ==> y.missingFeatures.Some?)
            ==> x.opportunityScore <= y.opportunityScore
  {
    ComposeIsSortedTable(unmet, price, pain, catalog, gaps);
    PermutedScoredMonotone(RawRows(unmet, price, pain, catalog, gaps, Categories(unmet)),
                           Compose(unmet, price, pain, catalog, gaps).value, a, b);
  }

  lemma PermutedScoredMonotone(rows: seq<Opportunity>, r: seq<Opportunity>, a: nat, b: nat)
    requires multiset(r) == multiset(Scored(rows))
    requires a < |r| && b < |r|
    ensures r[a].unmetSignal <= r[b].unmetSignal
            && r[a].priceSensitivity.GetOr(0.0) <= r[b].priceSensitivity.GetOr(0.0)
            && (r[a].missingFeatures.Some? ==> r[b].missingFeatures.Some?)
            ==> r[a].opportunityScore <= r[b].opportunityScore
  {
    var t := Scored(rows);
    SameElements(r, t);
    var i :| 0 <= i < |t| && t[i] == r[a];
    var j :| 0 <= j < |t| && t[j] == r[b];
    ScoredMonotone(rows, i, j);
  }

  /** Within one scored table, a row whose inputs are all at least another
      row's scores at least as high. */
  lemma ScoredMonotone(rows: seq<Opportunity>, i: nat, j: nat)
    requires i < |rows| && j < |rows|
    ensures var t := Scored(rows);
            t[i].unmetSignal <= t[j].unmetSignal
            && t[i].priceSensitivity.GetOr(0.0) <= t[j].priceSensitivity.GetOr(0.0)
            && (t[i].missingFeatures.Some? ==> t[j].missingFeatures.Some?)
            ==> t[i].opportunityScore <= t[j].opportunityScore
  {
    var t := Scored(rows);
    assert t[i].unmetSignal == rows[i].unmetSignal by {
      assert t[i].(opportunityScore := 0.0).unmetSignal == rows[i].(opportunityScore := 0.0).unmetSignal;
    }
    assert t[j].unmetSignal == rows[j].unmetSignal by {
      assert t[j].(opportunityScore := 0.0).unmetSignal == rows[j].(opportunityScore := 0.0).unmetSignal;
    }
    assert t[i].priceSensitivity == rows[i].priceSensitivity by {
      assert t[i].(opportunityScore := 0.0).priceSensitivity == rows[i].(opportunityScore := 0.0).priceSensitivity;
    }
    assert t[j].priceSensitivity == rows[j].priceSensitivity by {
      assert t[j].(opportunityScore := 0.0).priceSensitivity == rows[j].(opportunityScore := 0.0).priceSensitivity;
    }
    assert t[i].missingFeatures == rows[i].missingFeatures by {
      assert t[i].(opportunityScore := 0.0).missingFeatures == rows[i].(opportunityScore := 0.0).missingFeatures;
    }
    assert t[j].missingFeatures == rows[j].missingFeatures by {
      assert t[j].(opportunityScore := 0.0).missingFeatures == rows[j].(opportunityScore := 0.0).missingFeatures;
    }
    NormalizeMonotone(UnmetColumn(rows), i, j);
    NormalizeMonotone(PriceColumn(rows), i, j);
    var un := Normalize(UnmetColumn(rows));
    var pn := Normalize(PriceColumn(rows));
    if t[i].unmetSignal <= t[j].unmetSignal
       && t[i].priceSensitivity.GetOr(0.0) <= t[j].priceSensitivity.GetOr(0.0)
       && (t[i].missingFeatures.Some? ==> t[j].missingFeatures.Some?) {
      ScoreMonotone(un[i], pn[i], rows[i].missingFeatures.Some?, un[j], pn[j], rows[j].missingFeatures.Some?);
    }
  }

  /** A table of one category has no variance in either column, so both
      normalised values are 0 and the score is 0.20 with a gap row and 0
      without, whatever the raw values. */
  lemma SingleCategoryScore(unmet: seq<QueryDemand>, price: seq<ProductPrice>, pain: seq<ProductPain>,
                            catalog: seq<CatalogItem>, gaps: seq<CategoryGap>)
    requires GapCategoriesDistinct(gaps)
    requires Compose(unmet, price, pain, catalog, gaps).Success?
    requires |Compose(unmet, price, pain, catalog, gaps).value| == 1
    ensures var x := Compose(unmet, price, pain, catalog, gaps).value[0];
            x.opportunityScore == if x.missingFeatures.Some? then GapWeight else 0.0
  {
    ComposeIsSortedTable(unmet, price, pain, catalog, gaps);
    PermutedSingleScore(RawRows(unmet, price, pain, catalog, gaps, Categories(unmet)),
                        Compose(unmet, price, pain, catalog, gaps).value);
  }

  lemma PermutedSingleScore(rows: seq<Opportunity>, r: seq<Opportunity>)
    requires multiset(r) == multiset(Scored(rows)) && |r| == 1
    ensures r[0].opportunityScore == if r[0].missingFeatures.Some? then GapWeight else 0.0
  {
    var t := Scored(rows);
    assert |t| == 1 by {
      assert |multiset(r)| == |multiset(t)|;
    }
    SameElements(r, t);
    assert r[0] == t[0];
    SingleRowScore(rows);
  }

  lemma SingleRowScore(rows: seq<Opportunity>)
    requires |rows| == 1
    ensures Scored(rows)[0].opportunityScore == if Scored(rows)[0].missingFeatures.Some? then GapWeight else 0.0
  {
    var t := Scored(rows);
    NormalizeExtremes(UnmetColumn(rows));
    NormalizeExtremes(PriceColumn(rows));
    assert Normalize(UnmetColumn(rows))[0] == 0.0;
    assert Normalize(PriceColumn(rows))[0] == 0.0;
    assert t[0].missingFeatures == rows[0].missingFeatures by {
      assert t[0].(opportunityScore := 0.0).missingFeatures == rows[0].(opportunityScore := 0.0).missingFeatures;
    }
  }

  /** The score counts a gap row that is present, even with an empty
      missing-features text, while the recommendation only proposes adding
      features that are named: a category whose gap cell is "" earns the
      gap weight but no "Add:" idea. */
  lemma EmptyGapCountsButIsNotProposed(unmet: seq<QueryDemand>, price: seq<ProductPrice>, pain: seq<ProductPain>,
                                       catalog: seq<CatalogItem>, gaps: seq<CategoryGap>, a: nat)
    requires GapCategoriesDistinct(gaps)
    requires Compose(unmet, price, pain, catalog, gaps).Success?
    requires a < |Compose(unmet, price, pain, catalog, gaps).value|
    requires Compose(unmet, price, pain, catalog, gaps).value[a].missingFeatures == Some("")
    ensures var x := Compose(unmet, price, pain, catalog, gaps).value[a];
            GapWeight <= x.opportunityScore
            && forall k :: 0 <= k < |Ideas(x.missingFeatures, x.painPoints, x.priceSensitivity)| ==>
                 Ideas(x.missingFeatures, x.painPoints, x.priceSensitivity)[k] != AddIdea("")
  {
    var x := Compose(unmet, price, pain, catalog, gaps).value[a];
    NoAddIdeaForEmptyGap(x.painPoints, x.priceSensitivity);
  }

  lemma NoAddIdeaForEmptyGap(pain: Option<string>, price: Option<real>)
    ensures forall k :: 0 <= k < |Ideas(Some(""), pain, price)| ==> Ideas(Some(""), pain, price)[k] != AddIdea("")
  {
    var ideas := Ideas(Some(""), pain, price);
    forall k | 0 <= k < |ideas|
      ensures ideas[k] != AddIdea("")
    {
      assert AddIdea("")[3] == ':';
      assert AddressIdea(pain.GetOr(""))[3] == 'r';
      assert PriceIdea[0] == 'T';
    }
  }

  /** The search volumes of the output rows add up to all searches of the
      input: the keyword mapping loses and double-counts nothing. */
  lemma SearchVolumesAddUp(unmet: seq<QueryDemand>, price: seq<ProductPrice>, pain: seq<ProductPain>,
                           catalog: seq<CatalogItem>, gaps: seq<CategoryGap>)
    requires GapCategoriesDistinct(gaps)
    requires Compose(unmet, price, pain, catalog, gaps).Success?
    ensures VolumeColumnSum(Compose(unmet, price, pain, catalog, gaps).value) == TotalSearches(unmet)
  {
    var r := Compose(unmet, price, pain, catalog, gaps).value;
    var cs := OutCategories(r);
    forall i | 0 <= i < |unmet|
      ensures MapCat(unmet[i].query) in cs
    {
      assert QueryCategories(unmet)[i] == MapCat(unmet[i].query);
    }
    VolumesPartitionSearches(unmet, cs);
    VolumeColumnIsSumVolumes(unmet, price, pain, catalog, gaps, r);
  }

  /** The sum of a table's `search_volume` column. */
  function VolumeColumnSum(rows: seq<Opportunity>): int
  {
    if |rows| == 0 then 0 else VolumeColumnSum(rows[..|rows| - 1]) + rows[|rows| - 1].searchVolume
  }

  lemma {:induction false} VolumeColumnIsSumVolumes(unmet: seq<QueryDemand>, price: seq<ProductPrice>, pain: seq<ProductPain>,
                                                    catalog: seq<CatalogItem>, gaps: seq<CategoryGap>, rows: seq<Opportunity>)
    requires forall i :: 0 <= i < |rows| ==> RowOf(unmet, price, pain, catalog, gaps, rows[i])
    ensures VolumeColumnSum(rows) == SumVolumes(unmet, OutCategories(rows))
  {
    if |rows| > 0 {
      var n := |rows| - 1;
      var init := rows[..n];
      assert forall i :: 0 <= i < |init| ==> init[i] == rows[i];
      VolumeColumnIsSumVolumes(unmet, price, pain, catalog, gaps, init);
      OutCategoriesPrefix(rows);
      RowVolume(unmet, price, pain, catalog, gaps, rows[n]);
    }
  }

  lemma OutCategoriesPrefix(rows: seq<Opportunity>)
    requires |rows| > 0
    ensures OutCategories(rows)[..|rows| - 1] == OutCategories(rows[..|rows| - 1])
    ensures OutCategories(rows)[|rows| - 1] == rows[|rows| - 1].category
  {
    MapPrefix(rows, (x: Opportunity) => x.category, |rows| - 1);
  }

  /** A table row carries its category's search volume. */
  lemma RowVolume(unmet: seq<QueryDemand>, price: seq<ProductPrice>, pain: seq<ProductPain>,
                  catalog: seq<CatalogItem>, gaps: seq<CategoryGap>, o: Opportunity)
    requires RowOf(unmet, price, pain, catalog, gaps, o)
    ensures o.searchVolume == CategoryVolume(unmet, o.category)
  {
    assert o.(opportunityScore := 0.0).searchVolume == RawRow(unmet, price, pain, catalog, gaps, o.category).searchVolume;
  }
}
