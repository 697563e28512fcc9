/** `comp_gaps`: for every category that both the catalog and the
    competitor table carry, the competitor feature tokens the catalog lacks,
    sorted, de-duplicated, joined with ", " and cut to 200 characters.

    Tokens are what Python's `str.split(", ")` yields after every "/" was
    replaced by a space; the set difference compares tokens before they are
    stripped, and stripping happens afterwards. */
module CompetitiveGaps {
  import opened Base
  import opened Text
  import opened Records

  /** Length cap of `missing_features`. */
  const MaxGapChars: nat := 200

  const TokenSeparator: string := ", "

  /** `str.lower().fillna("")` on a features cell. */
  function FeatureText(f: Option<string>): (r: string)
    ensures f.None? ==> r == ""
    ensures f.Some? ==> r == Lower(f.value)
  {
    match f
    case None => ""
    case Some(s) => Lower(s)
  }

  function ItemInCategory(c: string): CatalogItem -> bool {
    (x: CatalogItem) => x.category == c
  }

  function RivalInCategory(c: string): CompetitorRecord -> bool {
    (x: CompetitorRecord) => x.category == c
  }

  /** The lower-cased features of the catalog rows of category `c`, in
      table order: one text per such row, and every such row's text. */
  function OurFeatures(catalog: seq<CatalogItem>, c: string): (r: seq<string>)
    ensures |r| == CountWhere(catalog, ItemInCategory(c))
    ensures forall k :: 0 <= k < |catalog| && catalog[k].category == c ==> FeatureText(catalog[k].features) in r
    ensures forall i :: 0 <= i < |r| ==>
              exists k :: 0 <= k < |catalog| && catalog[k].category == c && r[i] == FeatureText(catalog[k].features)
  {
    if |catalog| == 0 then []
    else
      var init := OurFeatures(catalog[..|catalog| - 1], c);
      var last := catalog[|catalog| - 1];
      assert forall k :: 0 <= k < |catalog| - 1 ==> catalog[..|catalog| - 1][k] == catalog[k];
      if last.category == c then init + [FeatureText(last.features)] else init
  }

  /** The lower-cased key features of the competitor rows of category `c`,
      in table order: one text per such row, and every such row's text. */
  function TheirFeatures(competitors: seq<CompetitorRecord>, c: string): (r: seq<string>)
    ensures |r| == CountWhere(competitors, RivalInCategory(c))
    ensures forall k :: 0 <= k < |competitors| && competitors[k].category == c ==>
              FeatureText(competitors[k].keyFeatures) in r
    ensures forall i :: 0 <= i < |r| ==>
              exists k :: 0 <= k < |competitors| && competitors[k].category == c
                          && r[i] == FeatureText(competitors[k].keyFeatures)
  {
    if |competitors| == 0 then []
    else
      var init := TheirFeatures(competitors[..|competitors| - 1], c);
      var last := competitors[|competitors| - 1];
      assert forall k :: 0 <= k < |competitors| - 1 ==> competitors[..|competitors| - 1][k] == competitors[k];
      if last.category == c then init + [FeatureText(last.keyFeatures)] else init
  }

  /** `", ".join(texts).replace("/", " ").split(", ")`: the raw tokens of a
      category's feature texts; none of them contains the separator, and
      joining them back gives the slash-free combined text. */
  function Tokens(texts: seq<string>): (ts: seq<string>)
    ensures |ts| >= 1
    ensures forall k, j :: 0 <= k < |ts| ==> !OccursAt(ts[k], TokenSeparator, j)
    ensures Join(ts, TokenSeparator) == ReplaceChar(Join(texts, TokenSeparator), '/', ' ')
  {
    Split(ReplaceChar(Join(texts, TokenSeparator), '/', ' '), TokenSeparator)
  }

  /** `[t.strip() for t in theirs - ours if t.strip()]`, with the set
      difference read as "not among `ours`". */
  function GapTokens(ours: seq<string>, theirs: seq<string>): (g: seq<string>)
    ensures forall i :: 0 <= i < |g| ==>
              g[i] != "" && exists k :: 0 <= k < |theirs| && theirs[k] !in ours && Strip(theirs[k]) == g[i]
    ensures forall k :: 0 <= k < |theirs| && theirs[k] !in ours && Strip(theirs[k]) != "" ==>
              Strip(theirs[k]) in g
  {
    if |theirs| == 0 then []
    else
      var init := GapTokens(ours, theirs[..|theirs| - 1]);
      var last := theirs[|theirs| - 1];
      assert forall k :: 0 <= k < |theirs| - 1 ==> theirs[..|theirs| - 1][k] == theirs[k];
      if last !in ours && Strip(last) != "" then init + [Strip(last)] else init
  }

  /** `sorted(set(gap))`: the missing features before they are joined. */
  function GapList(ours: seq<string>, theirs: seq<string>): (g: seq<string>)
    ensures StrictlySorted(g)
  {
    SortedDistinct(GapTokens(Tokens(ours), Tokens(theirs)))
  }

  /** The `missing_features` cell of a category from its catalog and
      competitor feature texts. */
  function MissingFeatures(ours: seq<string>, theirs: seq<string>): (r: string)
    ensures |r| <= MaxGapChars
    ensures r <= Join(GapList(ours, theirs), TokenSeparator)
    ensures |r| < MaxGapChars ==> r == Join(GapList(ours, theirs), TokenSeparator)
  {
    Take(Join(GapList(ours, theirs), TokenSeparator), MaxGapChars)
  }

  function CatalogCategories(catalog: seq<CatalogItem>): seq<string> {
    Map(catalog, (x: CatalogItem) => x.category)
  }

  function CompetitorCategories(competitors: seq<CompetitorRecord>): seq<string> {
    Map(competitors, (x: CompetitorRecord) => x.category)
  }

  function Among(xs: seq<string>): string -> bool {
    (c: string) => c in xs
  }

  /** `sorted(set(catalog categories) & set(competitor categories))`. */
  function SharedCategories(catalog: seq<CatalogItem>, competitors: seq<CompetitorRecord>): (cs: seq<string>)
    ensures StrictlySorted(cs)
    ensures forall c :: c in cs <==> c in CatalogCategories(catalog) && c in CompetitorCategories(competitors)
  {
    SortedDistinct(Filter(CatalogCategories(catalog), Among(CompetitorCategories(competitors))))
  }

  function GapCategories(rows: seq<CategoryGap>): seq<string> {
    Map(rows, (x: CategoryGap) => x.category)
  }

  /** The gap row of a category. */
  function GapRow(catalog: seq<CatalogItem>, competitors: seq<CompetitorRecord>, c: string): CategoryGap {
    CategoryGap(c, MissingFeatures(OurFeatures(catalog, c), TheirFeatures(competitors, c)))
  }

  /** One gap row per category of `cs`, in that order. */
  function GapRows(catalog: seq<CatalogItem>, competitors: seq<CompetitorRecord>, cs: seq<string>): (r: seq<CategoryGap>)
    ensures |r| == |cs|
    ensures forall i :: 0 <= i < |r| ==> r[i] == GapRow(catalog, competitors, cs[i])
  {
    if |cs| == 0 then []
    else [GapRow(catalog, competitors, cs[0])] + GapRows(catalog, competitors, cs[1..])
  }

  /** `comp_gaps(catalog, competitors)`: one row per category present in
      both tables, in ascending category order, each holding the category's
      capped missing-feature text. */
  function CompGaps(catalog: seq<CatalogItem>, competitors: seq<CompetitorRecord>): (r: seq<CategoryGap>)
    ensures StrictlySorted(GapCategories(r))
    ensures forall c :: c in GapCategories(r) <==> c in CatalogCategories(catalog) && c in CompetitorCategories(competitors)
    ensures forall i :: 0 <= i < |r| ==>
              r[i].missingFeatures == MissingFeatures(OurFeatures(catalog, r[i].category), TheirFeatures(competitors, r[i].category))
    ensures forall i :: 0 <= i < |r| ==> |r[i].missingFeatures| <= MaxGapChars
  {
    var cs := SharedCategories(catalog, competitors);
    var r := GapRows(catalog, competitors, cs);
    assert GapCategories(r) == cs;
    r
  }

  // ---------------------------------------------------------------------
  // Properties

  /** The de-duplicated gap tokens of two token lists, characterised
      without reference to how they were computed. */
  lemma GapTokensMeaning(our: seq<string>, their: seq<string>)
    ensures forall t :: t in SortedDistinct(GapTokens(our, their)) <==>
              t != "" && exists u :: u in their && u !in our && Strip(u) == t
  {
    var g := GapTokens(our, their);
    forall t | t in g
      ensures t != "" && exists u :: u in their && u !in our && Strip(u) == t
    {
      var i :| 0 <= i < |g| && g[i] == t;
      var k :| 0 <= k < |their| && their[k] !in our && Strip(their[k]) == g[i];
      assert their[k] in their;
    }
    forall t | t != "" && exists u :: u in their && u !in our && Strip(u) == t
      ensures t in g
    {
      var u :| u in their && u !in our && Strip(u) == t;
      var k :| 0 <= k < |their| && their[k] == u;
    }
  }

  /** Gap tokens are stripped, and inherit separator-freedom from the
      tokens they come from. */
  lemma GapTokensShape(our: seq<string>, their: seq<string>)
    ensures forall t :: t in SortedDistinct(GapTokens(our, their)) ==> Strip(t) == t
    ensures (forall k, j :: 0 <= k < |their| ==> !OccursAt(their[k], TokenSeparator, j)) ==>
              forall t, j :: t in SortedDistinct(GapTokens(our, their)) ==> !OccursAt(t, TokenSeparator, j)
  {
    var g := GapTokens(our, their);
    forall t | t in g
      ensures Strip(t) == t
      ensures (forall k, j :: 0 <= k < |their| ==> !OccursAt(their[k], TokenSeparator, j)) ==>
                forall j :: !OccursAt(t, TokenSeparator, j)
    {
      var i :| 0 <= i < |g| && g[i] == t;
      var k :| 0 <= k < |their| && their[k] !in our && Strip(their[k]) == g[i];
      StripIdempotent(their[k]);
      if forall k, j :: 0 <= k < |their| ==> !OccursAt(their[k], TokenSeparator, j) {
        StripKeepsFree(their[k], TokenSeparator);
      }
    }
  }

  /** A feature is reported missing exactly when it is non-empty and is the
      stripped form of some competitor token that, unstripped, is not among
      the catalog's tokens. Every reported feature is already stripped. */
  lemma GapListMeaning(ours: seq<string>, theirs: seq<string>)
    ensures forall t :: t in GapList(ours, theirs) <==>
              t != "" && exists u :: u in Tokens(theirs) && u !in Tokens(ours) && Strip(u) == t
    ensures forall t :: t in GapList(ours, theirs) ==> Strip(t) == t
  {
    GapTokensMeaning(Tokens(ours), Tokens(theirs));
    GapTokensShape(Tokens(ours), Tokens(theirs));
  }

  /** No reported feature contains the separator ", ". */
  lemma GapListSeparatorFree(ours: seq<string>, theirs: seq<string>)
    ensures forall i, j :: 0 <= i < |GapList(ours, theirs)| ==> !OccursAt(GapList(ours, theirs)[i], TokenSeparator, j)
  {
    var l := GapList(ours, theirs);
    GapTokensShape(Tokens(ours), Tokens(theirs));
    assert forall i :: 0 <= i < |l| ==> l[i] in l;
  }

  /** When nothing is cut off, `missing_features` splits on ", " back into
      the sorted gap list; when nothing is missing it is the empty string. */
  lemma MissingFeaturesRoundTrip(ours: seq<string>, theirs: seq<string>)
    ensures |GapList(ours, theirs)| == 0 ==> MissingFeatures(ours, theirs) == ""
    ensures |GapList(ours, theirs)| >= 1 && |Join(GapList(ours, theirs), TokenSeparator)| <= MaxGapChars ==>
              Split(MissingFeatures(ours, theirs), TokenSeparator) == GapList(ours, theirs)
  {
    var l := GapList(ours, theirs);
    if |l| >= 1 && |Join(l, TokenSeparator)| <= MaxGapChars {
      GapListSeparatorFree(ours, theirs);
      SplitJoinCommaSpace(l);
    }
  }

  /** The table is empty exactly when the two tables share no category. */
  lemma CompGapsEmpty(catalog: seq<CatalogItem>, competitors: seq<CompetitorRecord>)
    ensures |CompGaps(catalog, competitors)| == 0 <==>
              forall i, j :: 0 <= i < |catalog| && 0 <= j < |competitors| ==> catalog[i].category != competitors[j].category
  {
    if exists i, j :: 0 <= i < |catalog| && 0 <= j < |competitors| && catalog[i].category == competitors[j].category {
      var i, j :| 0 <= i < |catalog| && 0 <= j < |competitors| && catalog[i].category == competitors[j].category;
      SharedCategoryHasRow(catalog, competitors, i, j);
    }
    if |CompGaps(catalog, competitors)| > 0 {
      RowHasSharedCategory(catalog, competitors);
    }
  }

  lemma SharedCategoryHasRow(catalog: seq<CatalogItem>, competitors: seq<CompetitorRecord>, i: nat, j: nat)
    requires i < |catalog| && j < |competitors| && catalog[i].category == competitors[j].category
    ensures |CompGaps(catalog, competitors)| > 0
  {
    var c := catalog[i].category;
    assert CatalogCategories(catalog)[i] == c;
    assert CompetitorCategories(competitors)[j] == c;
    assert c in GapCategories(CompGaps(catalog, competitors));
  }

  lemma RowHasSharedCategory(catalog: seq<CatalogItem>, competitors: seq<CompetitorRecord>)
    requires |CompGaps(catalog, competitors)| > 0
    ensures exists i, j :: 0 <= i < |catalog| && 0 <= j < |competitors| && catalog[i].category == competitors[j].category
  {
    var cs := GapCategories(CompGaps(catalog, competitors));
    var c := cs[0];
    assert c in cs;
    var i :| 0 <= i < |catalog| && CatalogCategories(catalog)[i] == c;
    var j :| 0 <= j < |competitors| && CompetitorCategories(competitors)[j] == c;
    assert catalog[i].category == competitors[j].category;
  }

  // ---------------------------------------------------------------------
  // Worked examples

  /** A text with no comma, or with no space, holds no ", ". */
  lemma NoSeparatorIn(s: string)
    requires (forall i :: 0 <= i < |s| ==> s[i] != ',') || (forall i :: 0 <= i < |s| ==> s[i] != ' ')
    ensures forall j :: !OccursAt(s, TokenSeparator, j)
  {
    forall j
      ensures !OccursAt(s, TokenSeparator, j)
    {
      if 0 <= j && j + 2 <= |s| {
        assert s[j..j + 2][0] == s[j] && s[j..j + 2][1] == s[j + 1];
      }
    }
  }

  /** One catalog row and one competitor row of the same category give one
      gap row computed from their two feature texts. */
  lemma OneSharedCategory(item: CatalogItem, rival: CompetitorRecord)
    requires item.category == rival.category
    ensures CompGaps([item], [rival])
            == [CategoryGap(item.category, MissingFeatures([FeatureText(item.features)], [FeatureText(rival.keyFeatures)]))]
  {
    var c := item.category;
    assert SharedCategories([item], [rival]) == [c] by {
      assert CatalogCategories([item]) == [c];
      assert CompetitorCategories([rival]) == [c];
      StrictlySortedUnique(SharedCategories([item], [rival]), [c]);
    }
    assert OurFeatures([item], c) == [FeatureText(item.features)] by {
      assert [item][..0] == [];
    }
    assert TheirFeatures([rival], c) == [FeatureText(rival.keyFeatures)] by {
      assert [rival][..0] == [];
    }
  }

  /** One more competitor token adds its stripped form to the gap tokens
      exactly when it is not among ours and does not strip to "". */
  lemma GapTokensStep(ours: seq<string>, theirs: seq<string>, t: string)
    ensures GapTokens(ours, theirs + [t])
            == GapTokens(ours, theirs) + (if t !in ours && Strip(t) != "" then [Strip(t)] else [])
  {
    assert (theirs + [t])[..|theirs|] == theirs;
  }

  lemma GapTokensOne(ours: seq<string>, t: string)
    ensures GapTokens(ours, [t]) == if t !in ours && Strip(t) != "" then [Strip(t)] else []
  {
    GapTokensStep(ours, [], t);
    assert [] + [t] == [t];
  }

  /** A feature list of lower-case letters and bare commas. */
  predicate BareList(s: string) {
    forall i :: 0 <= i < |s| ==> 'a' <= s[i] <= 'z' || s[i] == ','
  }

  /** A bare list is its own lower-cased, stripped, single token. */
  lemma BareListIsOneToken(s: string)
    requires BareList(s)
    ensures FeatureText(Some(s)) == s
    ensures Tokens([s]) == [s]
    ensures Strip(s) == s
  {
    NoSeparatorIn(s);
    assert ReplaceChar(s, '/', ' ') == s;
    SplitWithoutSeparator(s, TokenSeparator);
    StripWithoutSpace(s);
  }

  /** Features listed with bare commas (no space after the comma) are not
      split at all: when one catalog row and one competitor row of a
      category list different features that way, the competitor's whole
      list is reported missing, shared features included. */
  lemma BareCommaListsAreOneToken(item: CatalogItem, rival: CompetitorRecord, ours: string, theirs: string)
    requires item.category == rival.category
    requires item.features == Some(ours) && rival.keyFeatures == Some(theirs)
    requires BareList(ours) && BareList(theirs)
    requires theirs != ours && theirs != "" && |theirs| <= MaxGapChars
    ensures CompGaps([item], [rival]) == [CategoryGap(item.category, theirs)]
  {
    OneSharedCategory(item, rival);
    BareListIsOneToken(ours);
    BareListIsOneToken(theirs);
    BareListGap(ours, theirs);
  }

  lemma BareListGap(ours: string, theirs: string)
    requires BareList(ours) && BareList(theirs)
    requires theirs != ours && theirs != ""
    ensures GapList([ours], [theirs]) == [theirs]
  {
    BareListIsOneToken(ours);
    BareListIsOneToken(theirs);
    GapTokensOne([ours], theirs);
    StrictlySortedUnique(GapList([ours], [theirs]), [theirs]);
  }

  /** Against a catalog offering "blender,timer", the competitor's
      "blender,timer,wifi" is reported missing whole. */
  lemma BareCommaExample()
    ensures CompGaps([CatalogItem("P1", "Kitchen", "Blender", Some("blender,timer"))],
                     [CompetitorRecord("Kitchen", Some("blender,timer,wifi"))])
            == [CategoryGap("Kitchen", "blender,timer,wifi")]
  {
    BareCommaListsAreOneToken(CatalogItem("P1", "Kitchen", "Blender", Some("blender,timer")),
                              CompetitorRecord("Kitchen", Some("blender,timer,wifi")),
                              "blender,timer", "blender,timer,wifi");
  }

  /** "wifi , timer" splits on ", " into "wifi " and "timer". */
  lemma SpaceBeforeCommaTokens()
    ensures Tokens(["wifi , timer"]) == ["wifi ", "timer"]
  {
    var theirTokens := ["wifi ", "timer"];
    assert ReplaceChar("wifi , timer", '/', ' ') == "wifi , timer";
    assert Join(theirTokens, TokenSeparator) == "wifi , timer";
    NoSeparatorIn("wifi ");
    NoSeparatorIn("timer");
    SplitJoinCommaSpace(theirTokens);
  }

  /** "timer, wifi" splits on ", " into "timer" and "wifi". */
  lemma CommaSpaceTokens()
    ensures Tokens(["timer, wifi"]) == ["timer", "wifi"]
  {
    var ourTokens := ["timer", "wifi"];
    assert ReplaceChar("timer, wifi", '/', ' ') == "timer, wifi";
    assert Join(ourTokens, TokenSeparator) == "timer, wifi";
    NoSeparatorIn("timer");
    NoSeparatorIn("wifi");
    SplitJoinCommaSpace(ourTokens);
  }

  lemma StripTrailingSpace()
    ensures Strip("wifi ") == "wifi"
  {
    assert TrimStart("wifi ") == "wifi ";
    assert TrimEnd("wifi ") == TrimEnd("wifi");
    assert TrimEnd("wifi") == "wifi";
  }

  /** Of the tokens "wifi " and "timer" only "wifi " is new to a catalog
      holding "timer" and "wifi". */
  lemma UnstrippedGapTokens()
    ensures GapTokens(["timer", "wifi"], ["wifi ", "timer"]) == ["wifi"]
  {
    StripTrailingSpace();
    GapTokensOne(["timer", "wifi"], "wifi ");
    GapTokensStep(["timer", "wifi"], ["wifi "], "timer");
    assert ["wifi "] + ["timer"] == ["wifi ", "timer"];
  }

  lemma UnstrippedGapList()
    ensures GapList(["timer, wifi"], ["wifi , timer"]) == ["wifi"]
  {
    CommaSpaceTokens();
    SpaceBeforeCommaTokens();
    UnstrippedGapTokens();
    SortedDistinctOne("wifi");
  }

  lemma LowerCaseTexts()
    ensures FeatureText(Some("timer, wifi")) == "timer, wifi"
    ensures FeatureText(Some("wifi , timer")) == "wifi , timer"
  {
  }

  /** The difference is taken before stripping: "wifi " (with the space
      left in front of " , ") differs from the catalog's "wifi", so "wifi"
      is reported missing although the catalog offers it. */
  lemma DifferenceBeforeStrip()
    ensures CompGaps([CatalogItem("P1", "Home", "Hub", Some("timer, wifi"))],
                     [CompetitorRecord("Home", Some("wifi , timer"))])
            == [CategoryGap("Home", "wifi")]
  {
    OneSharedCategory(CatalogItem("P1", "Home", "Hub", Some("timer, wifi")), CompetitorRecord("Home", Some("wifi , timer")));
    LowerCaseTexts();
    UnstrippedGapList();
  }
}
