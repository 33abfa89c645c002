/** Functions/gameFunctions.py: the age fragment builder, and the three reports
    that require one category, matched exactly with FIND_IN_SET, and rank what
    the server returns. Each `fetch_*` function is one method: it assembles the
    query text step by step, and takes the rows the server returns for that
    query as a parameter, since executing the query is outside the model. */
module GameFunctions {
  import opened Text
  import opened Sql
  import opened Ranking
  import opened ReportText
  import AgeFilter

  /** `get_age_category_filter`: one clause per selected bracket, in the fixed
      order, joined by " OR "; empty when no known label is selected. */
  method GetAgeCategoryFilter(ageFilter: seq<string>) returns (filter: string)
    ensures filter == AgeFilter.AgeFragment(ageFilter)
    ensures filter == "" <==> forall b: AgeFilter.Bucket :: b.Label() !in ageFilter
  {
    ghost var picked: seq<AgeFilter.Bucket> := [];
    var ageConditions: seq<string> := [];
    if "0-7 (Children)" in ageFilter {
      ageConditions := ageConditions + ["`Required Age` BETWEEN 0 AND 7"];
      picked := picked + [AgeFilter.Children];
    }
    assert picked == AgeFilter.Pick(AgeFilter.Children, ageFilter);
    assert ageConditions == AgeFilter.ClauseTexts(picked);
    if "8-15 (Teens)" in ageFilter {
      ageConditions := ageConditions + ["`Required Age` BETWEEN 8 AND 15"];
      picked := picked + [AgeFilter.Teens];
    }
    assert ageConditions == AgeFilter.ClauseTexts(picked);
    if "16-21 (Young Adults)" in ageFilter {
      ageConditions := ageConditions + ["`Required Age` BETWEEN 16 AND 21"];
      picked := picked + [AgeFilter.YoungAdults];
    }
    assert ageConditions == AgeFilter.ClauseTexts(picked);
    AgeFilter.SelectedBucketsUnfold(ageFilter);
    assert picked == AgeFilter.SelectedBuckets(ageFilter);
    AgeFilter.AgeFragmentEmptyIff(ageFilter);
    filter := Join(" OR ", ageConditions);
  }

  // ---------------------------------------------------------------------------
  // Query text
  // ---------------------------------------------------------------------------

  const RequiredAgeSelect: string :=
    "\n    SELECT \n        `Required Age`, \n        COUNT(`Required Age`) AS total_count\n    FROM dim_game\n    WHERE\n        "
  const RequiredAgeOrder: string :=
    "\n    GROUP BY \n        `Required Age`\n    ORDER BY \n        total_count DESC;\n    "

  /** The categories column as the joined reports and the age report spell it. */
  const JoinedCategories: string := "g.`Categories`"
  const PlainCategories: string := "`categories`"

  /** The WHERE condition: the category test, then the age fragment when it is
      non-empty. */
  function CategoryWhere(column: string, category: string, ageFil: string): string
  {
    "FIND_IN_SET('" + category + "', " + column + ") > 0\n    " + OptionalAnd(ageFil)
  }

  function PeakCcuQuery(category: string, ageFil: string): string
  {
    PeakCcuSelect + CategoryWhere(JoinedCategories, category, ageFil) + PeakCcuOrder
  }

  function PlaytimeQuery(category: string, ageFil: string): string
  {
    PlaytimeSelect + CategoryWhere(JoinedCategories, category, ageFil) + PlaytimeOrder
  }

  function RequiredAgeQuery(category: string, ageFil: string): string
  {
    RequiredAgeSelect + CategoryWhere(PlainCategories, category, ageFil) + RequiredAgeOrder
  }

  /** Every query ends with its fixed GROUP BY ... ORDER BY ... DESC text,
      which follows the age fragment whenever one is appended. */
  lemma QueriesEndWithOrder(category: string, ageFil: string)
    ensures var q := PeakCcuQuery(category, ageFil);
      |q| >= |PeakCcuOrder| && q[|q| - |PeakCcuOrder|..] == PeakCcuOrder
    ensures var q := PlaytimeQuery(category, ageFil);
      |q| >= |PlaytimeOrder| && q[|q| - |PlaytimeOrder|..] == PlaytimeOrder
    ensures var q := RequiredAgeQuery(category, ageFil);
      |q| >= |RequiredAgeOrder| && q[|q| - |RequiredAgeOrder|..] == RequiredAgeOrder
  {
    SuffixAfter(PeakCcuSelect + CategoryWhere(JoinedCategories, category, ageFil), PeakCcuOrder);
    SuffixAfter(PlaytimeSelect + CategoryWhere(JoinedCategories, category, ageFil), PlaytimeOrder);
    SuffixAfter(RequiredAgeSelect + CategoryWhere(PlainCategories, category, ageFil), RequiredAgeOrder);
  }

  // ---------------------------------------------------------------------------
  // The reports
  // ---------------------------------------------------------------------------

  /** The query text, built step by step as the three reports build it: the
      report's SELECT text, the category test, ` AND (...)` around the age
      fragment when it is non-empty, then the report's GROUP BY text. */
  method AssembleQuery(select: string, column: string, selectedCategory: string, ageFil: string, order: string)
    returns (query: string)
    ensures query == select + CategoryWhere(column, selectedCategory, ageFil) + order
  {
    var categoryTest := "FIND_IN_SET('" + selectedCategory + "', " + column + ") > 0\n    ";
    query := select + categoryTest;
    if ageFil != "" {
      query := query + (" AND (" + ageFil + ")");
    }
    ConcatAssoc(select, categoryTest, OptionalAnd(ageFil));
    query := query + order;
  }

  /** `fetch_games_highest_peak_ccu`: games of the category ranked by their
      highest peak concurrent users; `result` is what the server returns. */
  method FetchGamesHighestPeakCcu(selectedCategory: string, topN: int, ageFil: string, result: seq<Row<string>>)
    returns (query: string, highestCcu: seq<Row<string>>)
    ensures query == PeakCcuQuery(selectedCategory, ageFil)
    ensures highestCcu == NLargest(result, topN)
  {
    query := AssembleQuery(PeakCcuSelect, JoinedCategories, selectedCategory, ageFil, PeakCcuOrder);
    var df := result;
    highestCcu := NLargest(df, topN);
  }

  /** `fetch_games_highest_playtime`: games of the category ranked by average
      playtime, after the rows missing either playtime are dropped. */
  method FetchGamesHighestPlaytime(selectedCategory: string, topN: int, ageFil: string, result: seq<Row<Playtime>>)
    returns (query: string, highestAvePlaytime: seq<Row<Playtime>>)
    ensures query == PlaytimeQuery(selectedCategory, ageFil)
    ensures highestAvePlaytime == PlaytimeTop(result, topN)
    ensures forall i :: 0 <= i < |highestAvePlaytime| ==> Complete(highestAvePlaytime[i])
    ensures |highestAvePlaytime| <= if topN <= 0 then 0 else topN
  {
    query := AssembleQuery(PlaytimeSelect, JoinedCategories, selectedCategory, ageFil, PlaytimeOrder);
    var df := result;
    df := DropIncomplete(df);
    highestAvePlaytime := NLargest(df, topN);
    PlaytimeTopSpec(result, topN);
  }

  /** `fetch_games_required_age`: how many games of the category there are per
      required age, the largest counts first; five rows unless told otherwise. */
  method FetchGamesRequiredAge(selectedCategory: string, ageFil: string, result: seq<Row<int>>, topN: int := 5)
    returns (query: string, requiredAgeCount: seq<Row<int>>)
    ensures query == RequiredAgeQuery(selectedCategory, ageFil)
    ensures requiredAgeCount == NLargest(result, topN)
  {
    query := AssembleQuery(RequiredAgeSelect, PlainCategories, selectedCategory, ageFil, RequiredAgeOrder);
    var df := result;
    requiredAgeCount := NLargest(df, topN);
  }

  /** Called without a row count, the age report keeps at most five rows. */
  method RequiredAgeDefaultCount(selectedCategory: string, ageFil: string, result: seq<Row<int>>)
    returns (requiredAgeCount: seq<Row<int>>)
    ensures |requiredAgeCount| == Min(5, |result|)
  {
    var _, top := FetchGamesRequiredAge(selectedCategory, ageFil, result);
    requiredAgeCount := top;
  }

  // ---------------------------------------------------------------------------
  // What the WHERE condition means
  // ---------------------------------------------------------------------------

  /** The condition the text stands for: the category test, and the age
      brackets' OR when some bracket is selected. */
  function WhereOf(column: string, category: string, ageFilter: seq<string>): Where
  {
    Where(Single(FindInSetPositive(category, column)), AgeFilter.AgeConjuncts(ageFilter))
  }

  /** With the age fragment built from a selection, the WHERE text is the
      rendering of WhereOf: the category test, then ` AND (...)` around the
      age OR exactly when some bracket is selected. */
  lemma CategoryWhereRenders(column: string, category: string, ageFilter: seq<string>)
    ensures var w := WhereOf(column, category, ageFilter);
      CategoryWhere(column, category, AgeFilter.AgeFragment(ageFilter))
        == Render(w.lead) + "\n    " + AndGroups(w.more)
  {
    var bs := AgeFilter.SelectedBuckets(ageFilter);
    AgeFilter.AgeFragmentRenders(ageFilter);
    RenderEmptyIff(AnyOf(AgeFilter.BucketPreds(bs)));
    OptionalAndRenders(AgeFilter.AgeConjuncts(ageFilter), AgeFilter.AgeFragment(ageFilter));
  }

  /** A game passes the WHERE exactly when the category is one of the
      comma-separated pieces of its categories and its age lies in a selected
      bracket (any age when none is selected). The text means this when the
      category carries no quote or backslash. */
  lemma CategoryWhereMeaning(column: string, category: string, ageFilter: seq<string>, g: Game)
    ensures Accepts(WhereOf(column, category, ageFilter), g)
      <==> (g.categories != "" && category in SplitComma(g.categories))
           && AgeFilter.AgeAllowed(ageFilter, g.requiredAge)
    ensures WellFormedWhere(WhereOf(column, category, ageFilter)) <==> LiteralSafe(category)
  {
    FindInSetPositiveIff(category, g.categories);
    AgeFilter.AgeConjunctsMeaning(ageFilter, g);
  }

  /** The text after the category's closing quote. */
  function AfterCategory(column: string, ageFil: string, tail: string): string
  {
    ", " + column + ") > 0\n    " + OptionalAnd(ageFil) + tail
  }

  lemma Regroup(x: string, c: string, q: string, sep: string, col: string, k: string, o: string, t: string)
    ensures (((((x + c) + (q + sep)) + col) + k) + o) + t == ((x + c) + q) + ((((sep + col) + k) + o) + t)
  {
  }

  /** The category is spliced in verbatim between quotes. Without a quote or a
      backslash the server reads it back exactly and goes on after it; with a
      quote it is not read back as itself (Sql.LoneQuoteEndsLiteral shows where
      the literal then ends). */
  lemma CategoryLiteral(column: string, category: string, ageFil: string, tail: string)
    ensures CategoryWhere(column, category, ageFil) + tail
      == "FIND_IN_SET('" + category + "'" + AfterCategory(column, ageFil, tail)
    ensures LiteralSafe(category) ==>
      ReadQuoted(category + "'" + AfterCategory(column, ageFil, tail))
        == Some((category, AfterCategory(column, ageFil, tail)))
    ensures '\'' in category ==>
      ReadQuoted(category + "'" + AfterCategory(column, ageFil, tail))
        != Some((category, AfterCategory(column, ageFil, tail)))
  {
    var after := AfterCategory(column, ageFil, tail);
    assert "', " == "'" + ", ";
    Regroup("FIND_IN_SET('", category, "'", ", ", column, ") > 0\n    ", OptionalAnd(ageFil), tail);
    assert after[0] == ',';
    if LiteralSafe(category) {
      SafeLiteralReadsBack(category, after);
    }
    if '\'' in category {
      QuoteBreaksLiteral(category, after);
    }
  }
}
