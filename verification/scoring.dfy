/** The per-category arithmetic of `compose`: min-max normalisation of a
    column, the weighted opportunity score, and the recommended-actions
    text built by its local `rec`. */
module Scoring {
  import opened Base
  import opened Text

  const UnmetWeight: real := 0.55
  const PriceWeight: real := 0.25
  const GapWeight: real := 0.20

  /** A price sensitivity above this earns the promotion idea. */
  const PriceIdeaThreshold: real := 0.1

  /** Length cap of `recommended_actions`. */
  const MaxActionChars: nat := 300

  const IdeaSeparator: string := "; "
  const PriceIdea: string := "Test price promotions or bundles"

  // ---------------------------------------------------------------------
  // Min-max normalisation

  /** The smallest value of a non-empty column. */
  function MinOf(xs: seq<real>): (m: real)
    requires |xs| > 0
    ensures m in xs
    ensures forall i :: 0 <= i < |xs| ==> m <= xs[i]
  {
    if |xs| == 1 then xs[0]
    else
      var rest := MinOf(xs[..|xs| - 1]);
      assert forall i :: 0 <= i < |xs| - 1 ==> xs[..|xs| - 1][i] == xs[i];
      if xs[|xs| - 1] < rest then xs[|xs| - 1] else rest
  }

  /** The largest value of a non-empty column. */
  function MaxOf(xs: seq<real>): (m: real)
    requires |xs| > 0
    ensures m in xs
    ensures forall i :: 0 <= i < |xs| ==> xs[i] <= m
  {
    if |xs| == 1 then xs[0]
    else
      var rest := MaxOf(xs[..|xs| - 1]);
      assert forall i :: 0 <= i < |xs| - 1 ==> xs[..|xs| - 1][i] == xs[i];
      if xs[|xs| - 1] > rest then xs[|xs| - 1] else rest
  }

  /** `(v - lo) / (hi - lo)` when `hi > lo`, and exactly 0.0 otherwise:
      the position of `v` between the column's extremes. */
  function NormValue(v: real, lo: real, hi: real): (r: real)
    requires lo <= v <= hi
    ensures 0.0 <= r <= 1.0
    ensures hi == lo ==> r == 0.0
    ensures hi > lo ==> r * (hi - lo) == v - lo
    ensures v == lo ==> r == 0.0
    ensures hi > lo && v == hi ==> r == 1.0
  {
    if hi > lo then
      var r := (v - lo) / (hi - lo);
      PositionFacts(v, lo, hi, r);
      r
    else
      0.0
  }

  /** The arithmetic behind `NormValue` on a varying column. */
  lemma PositionFacts(v: real, lo: real, hi: real, r: real)
    requires lo <= v <= hi && lo < hi && r == (v - lo) / (hi - lo)
    ensures r * (hi - lo) == v - lo
    ensures 0.0 <= r <= 1.0
    ensures v == lo ==> r == 0.0
    ensures v == hi ==> r == 1.0
  {
    var d := hi - lo;
    assert r * d == v - lo;
    assert (1.0 - r) * d == hi - v;
    ProductSign(r, d);
    ProductSign(1.0 - r, d);
    if v == lo {
      assert r == 0.0 / d;
    }
    if v == hi {
      assert r == d / d;
    }
  }

  /** Normalising keeps order, and strict order once the column varies. */
  lemma NormValueMonotone(a: real, b: real, lo: real, hi: real)
    requires lo <= a <= b <= hi
    ensures NormValue(a, lo, hi) <= NormValue(b, lo, hi)
    ensures a < b ==> NormValue(a, lo, hi) < NormValue(b, lo, hi)
  {
    if hi > lo {
      var ra := NormValue(a, lo, hi);
      var rb := NormValue(b, lo, hi);
      assert (rb - ra) * (hi - lo) == b - a;
      ProductSign(rb - ra, hi - lo);
    }
  }


  /** The normalised column: every value placed between the column's
      minimum (0) and maximum (1). */
  function Normalize(xs: seq<real>): (ns: seq<real>)
    ensures |ns| == |xs|
    ensures forall i :: 0 <= i < |xs| ==> 0.0 <= ns[i] <= 1.0
    ensures |xs| > 0 ==> forall i :: 0 <= i < |xs| ==> ns[i] == NormValue(xs[i], MinOf(xs), MaxOf(xs))
  {
    if |xs| == 0 then []
    else
      var lo := MinOf(xs);
      var hi := MaxOf(xs);
      seq(|xs|, i requires 0 <= i < |xs| => NormValue(xs[i], lo, hi))
  }

  /** Normalisation keeps the order of any two values of the column, and
      strict order too. */
  lemma NormalizeMonotone(xs: seq<real>, i: nat, j: nat)
    requires i < |xs| && j < |xs|
    ensures xs[i] <= xs[j] ==> Normalize(xs)[i] <= Normalize(xs)[j]
    ensures xs[i] < xs[j] ==> Normalize(xs)[i] < Normalize(xs)[j]
  {
    if xs[i] <= xs[j] {
      NormValueMonotone(xs[i], xs[j], MinOf(xs), MaxOf(xs));
    }
  }

  /** A column without variance normalises to all zeros; a column with
      variance reaches both 0 and 1. */
  lemma NormalizeExtremes(xs: seq<real>)
    ensures (forall i :: 0 <= i < |xs| ==> xs[i] == xs[0]) ==>
              forall i :: 0 <= i < |xs| ==> Normalize(xs)[i] == 0.0
    ensures (exists i :: 0 <= i < |xs| && xs[i] != xs[0]) ==>
              (exists i :: 0 <= i < |xs| && Normalize(xs)[i] == 0.0)
              && (exists j :: 0 <= j < |xs| && Normalize(xs)[j] == 1.0)
  {
    if |xs| > 0 {
      var lo := MinOf(xs);
      var hi := MaxOf(xs);
      var ns := Normalize(xs);
      var a :| 0 <= a < |xs| && xs[a] == lo;
      var b :| 0 <= b < |xs| && xs[b] == hi;
      assert ns[a] == 0.0;
      if exists i :: 0 <= i < |xs| && xs[i] != xs[0] {
        var i :| 0 <= i < |xs| && xs[i] != xs[0];
        assert hi > lo;
        assert ns[b] == 1.0;
      }
    }
  }

  // ---------------------------------------------------------------------
  // Score

  /** `0.55 * unmet_norm + 0.25 * price_norm + 0.20 * has_gap`. */
  function Score(unmetNorm: real, priceNorm: real, hasGap: bool): (s: real)
    ensures 0.0 <= unmetNorm <= 1.0 && 0.0 <= priceNorm <= 1.0 ==>
              0.0 <= s <= 1.0
              && (hasGap ==> GapWeight <= s)
              && (!hasGap ==> s <= UnmetWeight + PriceWeight)
  {
    UnmetWeight * unmetNorm + PriceWeight * priceNorm + (if hasGap then GapWeight else 0.0)
  }

  /** The score never falls when any of its inputs rises. */
  lemma ScoreMonotone(u1: real, p1: real, g1: bool, u2: real, p2: real, g2: bool)
    requires u1 <= u2 && p1 <= p2 && (g1 ==> g2)
    ensures Score(u1, p1, g1) <= Score(u2, p2, g2)
  {
  }

  // ---------------------------------------------------------------------
  // Recommended actions

  /** The text of a present, non-empty optional cell. */
  predicate Filled(cell: Option<string>) {
    cell.Some? && cell.value != ""
  }

  /** The price is present and above the threshold (NaN compares false). */
  predicate PriceHigh(price: Option<real>) {
    price.Some? && price.value > PriceIdeaThreshold
  }

  function AddIdea(missing: string): string {
    "Add: " + missing
  }

  function AddressIdea(pain: string): string {
    "Address: " + pain
  }

  /** The ideas of `rec`, in the order it appends them: a missing-features
      idea, a pain-point idea, the price idea. */
  function Ideas(missing: Option<string>, pain: Option<string>, price: Option<real>): (ideas: seq<string>)
    ensures |ideas| == (if Filled(missing) then 1 else 0) + (if Filled(pain) then 1 else 0) + (if PriceHigh(price) then 1 else 0)
    ensures forall k :: 0 <= k < |ideas| ==>
              (Filled(missing) && ideas[k] == AddIdea(missing.value))
              || (Filled(pain) && ideas[k] == AddressIdea(pain.value))
              || (PriceHigh(price) && ideas[k] == PriceIdea)
    ensures Filled(missing) ==> ideas[0] == AddIdea(missing.value)
    ensures PriceHigh(price) ==> ideas[|ideas| - 1] == PriceIdea
  {
    (if Filled(missing) then [AddIdea(missing.value)] else [])
    + (if Filled(pain) then [AddressIdea(pain.value)] else [])
    + (if PriceHigh(price) then [PriceIdea] else [])
  }

  /** Every idea is distinct from the others: they start differently. */
  lemma IdeasDistinct(missing: Option<string>, pain: Option<string>, price: Option<real>)
    ensures forall i, j :: 0 <= i < j < |Ideas(missing, pain, price)| ==>
              Ideas(missing, pain, price)[i] != Ideas(missing, pain, price)[j]
  {
    var m := missing.GetOr("");
    var p := pain.GetOr("");
    assert AddIdea(m)[3] != AddressIdea(p)[3];
    assert AddIdea(m)[0] != PriceIdea[0];
    assert AddressIdea(p)[0] != PriceIdea[0];
  }

  /** The promotion idea is proposed exactly when the price sensitivity is
      present and above 0.1. */
  lemma PriceIdeaIffHigh(missing: Option<string>, pain: Option<string>, price: Option<real>)
    ensures PriceIdea in Ideas(missing, pain, price) <==> PriceHigh(price)
  {
    var ideas := Ideas(missing, pain, price);
    if PriceIdea in ideas {
      var k :| 0 <= k < |ideas| && ideas[k] == PriceIdea;
      assert AddIdea(missing.GetOr(""))[0] == 'A';
      assert AddressIdea(pain.GetOr(""))[0] == 'A';
      assert PriceIdea[0] == 'T';
    }
  }

  /** `"; ".join(ideas)[:300]`. */
  function RecommendedActions(missing: Option<string>, pain: Option<string>, price: Option<real>): (text: string)
    ensures |text| <= MaxActionChars
    ensures text <= Join(Ideas(missing, pain, price), IdeaSeparator)
    ensures |Join(Ideas(missing, pain, price), IdeaSeparator)| <= MaxActionChars ==>
              forall k :: 0 <= k < |Ideas(missing, pain, price)| ==> Contains(text, Ideas(missing, pain, price)[k])
    ensures |Join(Ideas(missing, pain, price), IdeaSeparator)| <= MaxActionChars ==>
              text == Join(Ideas(missing, pain, price), IdeaSeparator)
    ensures |Join(Ideas(missing, pain, price), IdeaSeparator)| > MaxActionChars ==> |text| == MaxActionChars
  {
    var ideas := Ideas(missing, pain, price);
    JoinContainsParts(ideas, IdeaSeparator);
    Take(Join(ideas, IdeaSeparator), MaxActionChars)
  }

  /** The text is empty exactly when there is no idea. */
  lemma NoIdeasNoText(missing: Option<string>, pain: Option<string>, price: Option<real>)
    ensures RecommendedActions(missing, pain, price) == "" <==>
              !Filled(missing) && !Filled(pain) && !PriceHigh(price)
  {
    var ideas := Ideas(missing, pain, price);
    if |ideas| > 0 {
      JoinStartsWithFirst(ideas, IdeaSeparator);
      assert |ideas[0]| > 0;
    }
  }

  /** The cap can cut the promotion idea away: when the missing-features
      and pain-point ideas already fill 300 characters, the text is the
      same whatever the price sensitivity. */
  lemma PriceIdeaCutOff(missing: string, pain: string, price: Option<real>)
    requires missing != "" && pain != ""
    requires |AddIdea(missing) + IdeaSeparator + AddressIdea(pain)| >= MaxActionChars
    ensures RecommendedActions(Some(missing), Some(pain), price)
            == (AddIdea(missing) + IdeaSeparator + AddressIdea(pain))[..MaxActionChars]
  {
    var front := AddIdea(missing) + IdeaSeparator + AddressIdea(pain);
    var ideas := Ideas(Some(missing), Some(pain), price);
    if PriceHigh(price) {
      assert ideas == [AddIdea(missing), AddressIdea(pain), PriceIdea];
      assert ideas[1..] == [AddressIdea(pain), PriceIdea];
      assert ideas[1..][1..] == [PriceIdea];
      assert Join(ideas[1..], IdeaSeparator) == AddressIdea(pain) + IdeaSeparator + PriceIdea;
      assert Join(ideas, IdeaSeparator) == front + IdeaSeparator + PriceIdea;
    } else {
      assert ideas == [AddIdea(missing), AddressIdea(pain)];
      assert ideas[1..] == [AddressIdea(pain)];
      assert Join(ideas, IdeaSeparator) == front;
    }
  }
}
