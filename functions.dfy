/** functions.py: the two reports that take lists of categories to include and
    to exclude, matched as substrings with LIKE, and rank what the server
    returns. */
module Functions {
  import opened Text
  import opened Sql
  import opened Ranking
  import opened ReportText
  import AgeFilter

  /** `get_age_category_filter`, the same code as in Functions/gameFunctions.py:
      one clause per selected bracket, in the fixed order, joined by " OR ";
      empty when no known label is selected. */
  method GetAgeCategoryFilter(ageFilter: seq<string>) returns (filter: string)
    ensures filter == AgeFilter.AgeFragment(ageFilter)
    ensures filter == "" <==> forall b: AgeFilter.Bucket :: b.Label() !in ageFilter
  {
    ghost var picked: seq<AgeFilter.Bucket> := [];
    var ageConditions: seq<string> := [];
    if "0-7 (Children)" in ageFilter {
      ageConditions := ageConditions + ["`Required Age` BETWEEN 0 AND 7"];
      picked := picked + [AgeFilter.Children];
    }
    assert picked == AgeFilter.Pick(AgeFilter.Children, ageFilter);
    assert ageConditions == AgeFilter.ClauseTexts(picked);
    if "8-15 (Teens)" in ageFilter {
      ageConditions := ageConditions + ["`Required Age` BETWEEN 8 AND 15"];
      picked := picked + [AgeFilter.Teens];
    }
    assert ageConditions == AgeFilter.ClauseTexts(picked);
    if "16-21 (Young Adults)" in ageFilter {
      ageConditions := ageConditions + ["`Required Age` BETWEEN 16 AND 21"];
      picked := picked + [AgeFilter.YoungAdults];
    }
    assert ageConditions == AgeFilter.ClauseTexts(picked);
    AgeFilter.SelectedBucketsUnfold(ageFilter);
    assert picked == AgeFilter.SelectedBuckets(ageFilter);
    AgeFilter.AgeFragmentEmptyIff(ageFilter);
    filter := Join(" OR ", ageConditions);
  }

  /** The categories column as these reports spell it. */
  const CategoriesColumn: string := "g.categories"

  /** The substring pattern built around a category. */
  function Surround(category: string): string
  {
    "%" + category + "%"
  }

  /** The include tests as the list comprehension writes them. */
  function LikeTexts(categories: seq<string>): (texts: seq<string>)
    ensures |texts| == |categories|
    ensures forall i :: 0 <= i < |categories| ==>
      texts[i] == "g.categories LIKE '%" + categories[i] + "%'"
  {
    if categories == [] then []
    else ["g.categories LIKE '%" + categories[0] + "%'"] + LikeTexts(categories[1..])
  }

  /** The exclude tests as the list comprehension writes them. */
  function NotLikeTexts(categories: seq<string>): (texts: seq<string>)
    ensures |texts| == |categories|
    ensures forall i :: 0 <= i < |categories| ==>
      texts[i] == "g.categories NOT LIKE '%" + categories[i] + "%'"
  {
    if categories == [] then []
    else ["g.categories NOT LIKE '%" + categories[0] + "%'"] + NotLikeTexts(categories[1..])
  }

  /** One LIKE test per included category. */
  function LikePreds(categories: seq<string>): (ps: seq<Pred>)
    ensures |ps| == |categories|
    ensures forall i :: 0 <= i < |categories| ==> ps[i] == Like(CategoriesColumn, Surround(categories[i]))
  {
    if categories == [] then [] else [Like(CategoriesColumn, Surround(categories[0]))] + LikePreds(categories[1..])
  }

  /** One NOT LIKE test per excluded category. */
  function NotLikePreds(categories: seq<string>): (ps: seq<Pred>)
    ensures |ps| == |categories|
    ensures forall i :: 0 <= i < |categories| ==> ps[i] == NotLike(CategoriesColumn, Surround(categories[i]))
  {
    if categories == [] then [] else [NotLike(CategoriesColumn, Surround(categories[0]))] + NotLikePreds(categories[1..])
  }

  lemma AppendRegroup(x: string, p: string, c: string, r: string)
    ensures ((x + p) + c) + (p + r) == (x + ((p + c) + p)) + r
  {
  }

  /** A written include or exclude test is the rendering of its condition. */
  lemma LikeTextRenders(c: string)
    ensures "g.categories LIKE '%" + c + "%'" == RenderPred(Like(CategoriesColumn, Surround(c)))
    ensures "g.categories NOT LIKE '%" + c + "%'" == RenderPred(NotLike(CategoriesColumn, Surround(c)))
  {
    assert "%'" == "%" + "'";
    assert "g.categories LIKE '%" == (CategoriesColumn + " LIKE '") + "%";
    assert "g.categories NOT LIKE '%" == (CategoriesColumn + " NOT LIKE '") + "%";
    AppendRegroup(CategoriesColumn + " LIKE '", "%", c, "'");
    AppendRegroup(CategoriesColumn + " NOT LIKE '", "%", c, "'");
  }

  /** Each written test is the rendering of the corresponding condition. */
  lemma LikeTextsRender(categories: seq<string>)
    ensures LikeTexts(categories) == RenderEach(LikePreds(categories))
    ensures NotLikeTexts(categories) == RenderEach(NotLikePreds(categories))
  {
    forall i | 0 <= i < |categories|
      ensures LikeTexts(categories)[i] == RenderEach(LikePreds(categories))[i]
      ensures NotLikeTexts(categories)[i] == RenderEach(NotLikePreds(categories))[i]
    {
      LikeTextRenders(categories[i]);
    }
  }

  /** `include_query`: the include tests joined by " OR "; empty exactly when
      no category is included, and otherwise the rendering of their OR. */
  function IncludeQuery(included: seq<string>): (text: string)
    ensures text == "" <==> included == []
    ensures text == Render(AnyOf(LikePreds(included)))
  {
    LikeTextsRender(included);
    RenderEmptyIff(AnyOf(LikePreds(included)));
    Join(" OR ", LikeTexts(included))
  }

  /** `exclude_query`: the exclude tests joined by " AND "; empty exactly when
      no category is excluded, and otherwise the rendering of their AND. */
  function ExcludeQuery(excluded: seq<string>): (text: string)
    ensures text == "" <==> excluded == []
    ensures text == Render(AllOf(NotLikePreds(excluded)))
  {
    LikeTextsRender(excluded);
    RenderEmptyIff(AllOf(NotLikePreds(excluded)));
    Join(" AND ", NotLikeTexts(excluded))
  }

  /** The WHERE condition: the include OR in parentheses, then the exclude AND
      and the age fragment, each only when non-empty. */
  function IncludeWhere(includeQuery: string, excludeQuery: string, ageFil: string): string
  {
    "(" + includeQuery + ")\n    " + OptionalAnd(excludeQuery) + OptionalAnd(ageFil)
  }

  // ---------------------------------------------------------------------------
  // The reports
  // ---------------------------------------------------------------------------

  /** The WHERE text, built step by step as both reports build it, between the
      report's SELECT and GROUP BY text. */
  method AssembleQuery(select: string, includedCategories: seq<string>, excludedCategories: seq<string>,
                       ageFil: string, order: string)
    returns (query: string)
    ensures query == select
      + IncludeWhere(IncludeQuery(includedCategories), ExcludeQuery(excludedCategories), ageFil) + order
  {
    var includeQuery := IncludeQuery(includedCategories);
    var excludeQuery := ExcludeQuery(excludedCategories);
    var lead := "(" + includeQuery + ")\n    ";
    query := select + lead;
    if excludeQuery != "" {
      query := query + (" AND (" + excludeQuery + ")");
    }
    ConcatAssoc(select, lead, OptionalAnd(excludeQuery));
    if ageFil != "" {
      query := query + (" AND (" + ageFil + ")");
    }
    ConcatAssoc(select, lead + OptionalAnd(excludeQuery), OptionalAnd(ageFil));
    query := query + order;
  }

  /** `fetch_games_highest_peak_ccu`: games with some included category and
      none of the excluded ones, ranked by their highest peak concurrent users;
      `result` is what the server returns. */
  method FetchGamesHighestPeakCcu(includedCategories: seq<string>, excludedCategories: seq<string>,
                                  topN: int, ageFil: string, result: seq<Row<string>>)
    returns (query: string, highestCcu: seq<Row<string>>)
    ensures query == PeakCcuSelect
      + IncludeWhere(IncludeQuery(includedCategories), ExcludeQuery(excludedCategories), ageFil) + PeakCcuOrder
    ensures highestCcu == NLargest(result, topN)
  {
    query := AssembleQuery(PeakCcuSelect, includedCategories, excludedCategories, ageFil, PeakCcuOrder);
    var df := result;
    highestCcu := NLargest(df, topN);
  }

  /** `fetch_games_highest_playtime`: the same selection ranked by average
      playtime, after the rows missing either playtime are dropped. */
  method FetchGamesHighestPlaytime(includedCategories: seq<string>, excludedCategories: seq<string>,
                                   topN: int, ageFil: string, result: seq<Row<Playtime>>)
    returns (query: string, highestAvePlaytime: seq<Row<Playtime>>)
    ensures query == PlaytimeSelect
      + IncludeWhere(IncludeQuery(includedCategories), ExcludeQuery(excludedCategories), ageFil) + PlaytimeOrder
    ensures highestAvePlaytime == PlaytimeTop(result, topN)
    ensures forall i :: 0 <= i < |highestAvePlaytime| ==> Complete(highestAvePlaytime[i])
    ensures |highestAvePlaytime| <= if topN <= 0 then 0 else topN
  {
    query := AssembleQuery(PlaytimeSelect, includedCategories, excludedCategories, ageFil, PlaytimeOrder);
    var df := result;
    df := DropIncomplete(df);
    highestAvePlaytime := NLargest(df, topN);
    PlaytimeTopSpec(result, topN);
  }

  /** Both queries end with their fixed GROUP BY ... ORDER BY ... DESC text,
      after the exclude and age fragments. */
  lemma QueriesEndWithOrder(includeQuery: string, excludeQuery: string, ageFil: string)
    ensures var q := PeakCcuSelect + IncludeWhere(includeQuery, excludeQuery, ageFil) + PeakCcuOrder;
      |q| >= |PeakCcuOrder| && q[|q| - |PeakCcuOrder|..] == PeakCcuOrder
    ensures var q := PlaytimeSelect + IncludeWhere(includeQuery, excludeQuery, ageFil) + PlaytimeOrder;
      |q| >= |PlaytimeOrder| && q[|q| - |PlaytimeOrder|..] == PlaytimeOrder
  {
    SuffixAfter(PeakCcuSelect + IncludeWhere(includeQuery, excludeQuery, ageFil), PeakCcuOrder);
    SuffixAfter(PlaytimeSelect + IncludeWhere(includeQuery, excludeQuery, ageFil), PlaytimeOrder);
  }

  // ---------------------------------------------------------------------------
  // What the WHERE condition means
  // ---------------------------------------------------------------------------

  function ExcludeConjuncts(excluded: seq<string>): seq<Clause>
  {
    if excluded == [] then [] else [AllOf(NotLikePreds(excluded))]
  }

  /** The condition the text stands for: the include OR, then the exclude AND
      when something is excluded, then the age OR when a bracket is selected. */
  function MultiWhere(included: seq<string>, excluded: seq<string>, ageFilter: seq<string>): Where
  {
    Where(AnyOf(LikePreds(included)), ExcludeConjuncts(excluded) + AgeFilter.AgeConjuncts(ageFilter))
  }

  /** With the age fragment built from a selection, the WHERE text is the
      rendering of MultiWhere, the include OR in parentheses. */
  lemma IncludeWhereRenders(included: seq<string>, excluded: seq<string>, ageFilter: seq<string>)
    ensures var w := MultiWhere(included, excluded, ageFilter);
      IncludeWhere(IncludeQuery(included), ExcludeQuery(excluded), AgeFilter.AgeFragment(ageFilter))
        == "(" + Render(w.lead) + ")\n    " + AndGroups(w.more)
  {
    var ex := ExcludeConjuncts(excluded);
    var age := AgeFilter.AgeConjuncts(ageFilter);
    OptionalAndRenders(ex, ExcludeQuery(excluded));
    AgeFilter.AgeFragmentRenders(ageFilter);
    RenderEmptyIff(AnyOf(AgeFilter.BucketPreds(AgeFilter.SelectedBuckets(ageFilter))));
    OptionalAndRenders(age, AgeFilter.AgeFragment(ageFilter));
    AndGroupsAppend(ex, age);
  }

  /** The include OR holds when some pattern matches; it is well-formed when
      something is included and every pattern is a safe literal. */
  lemma IncludeClauseMeaning(included: seq<string>, g: Game)
    ensures Holds(AnyOf(LikePreds(included)), g)
      <==> exists i :: 0 <= i < |included| && LikeMatch(Surround(included[i]), g.categories)
    ensures WellFormed(AnyOf(LikePreds(included)))
      <==> included != [] && forall i :: 0 <= i < |included| ==> LiteralSafe(Surround(included[i]))
  {
    IncludeClauseHolds(included, g);
    IncludeClauseWellFormed(included);
  }

  lemma IncludeClauseHolds(included: seq<string>, g: Game)
    ensures Holds(AnyOf(LikePreds(included)), g)
      <==> exists i :: 0 <= i < |included| && LikeMatch(Surround(included[i]), g.categories)
  {
    var ps := LikePreds(included);
    if Holds(AnyOf(ps), g) {
      var i :| 0 <= i < |ps| && HoldsPred(ps[i], g);
      assert ps[i] == Like(CategoriesColumn, Surround(included[i]));
    }
    if exists i :: 0 <= i < |included| && LikeMatch(Surround(included[i]), g.categories) {
      var i :| 0 <= i < |included| && LikeMatch(Surround(included[i]), g.categories);
      assert ps[i] == Like(CategoriesColumn, Surround(included[i]));
      assert HoldsPred(ps[i], g);
    }
  }

  lemma IncludeClauseWellFormed(included: seq<string>)
    ensures WellFormed(AnyOf(LikePreds(included)))
      <==> included != [] && forall i :: 0 <= i < |included| ==> LiteralSafe(Surround(included[i]))
  {
    var ps := LikePreds(included);
    if WellFormed(AnyOf(ps)) {
      forall i | 0 <= i < |included| ensures LiteralSafe(Surround(included[i])) {
        assert WellFormedPred(ps[i]);
      }
    }
    if included != [] && forall i :: 0 <= i < |included| ==> LiteralSafe(Surround(included[i])) {
      forall i | 0 <= i < |ps| ensures WellFormedPred(ps[i]) {
        assert ps[i] == Like(CategoriesColumn, Surround(included[i]));
      }
    }
  }

  /** The appended exclude condition holds when no pattern matches, and is
      well-formed when every pattern is a safe literal. */
  lemma ExcludeConjunctsMeaning(excluded: seq<string>, g: Game)
    ensures (forall k :: 0 <= k < |ExcludeConjuncts(excluded)| ==> Holds(ExcludeConjuncts(excluded)[k], g))
      <==> forall j :: 0 <= j < |excluded| ==> !LikeMatch(Surround(excluded[j]), g.categories)
    ensures (forall k :: 0 <= k < |ExcludeConjuncts(excluded)| ==> WellFormed(ExcludeConjuncts(excluded)[k]))
      <==> forall j :: 0 <= j < |excluded| ==> LiteralSafe(Surround(excluded[j]))
  {
    var ps := NotLikePreds(excluded);
    var cs := ExcludeConjuncts(excluded);
    if excluded != [] {
      assert cs == [AllOf(ps)] && cs[0] == AllOf(ps);
      ExcludeClauseHolds(excluded, g);
      ExcludeClauseWellFormed(excluded);
    }
  }

  lemma ExcludeClauseHolds(excluded: seq<string>, g: Game)
    ensures Holds(AllOf(NotLikePreds(excluded)), g)
      <==> forall j :: 0 <= j < |excluded| ==> !LikeMatch(Surround(excluded[j]), g.categories)
  {
    var ps := NotLikePreds(excluded);
    if Holds(AllOf(ps), g) {
      forall j | 0 <= j < |excluded| ensures !LikeMatch(Surround(excluded[j]), g.categories) {
        assert HoldsPred(ps[j], g);
      }
    }
    if forall j :: 0 <= j < |excluded| ==> !LikeMatch(Surround(excluded[j]), g.categories) {
      forall j | 0 <= j < |ps| ensures HoldsPred(ps[j], g) {
        assert ps[j] == NotLike(CategoriesColumn, Surround(excluded[j]));
      }
    }
  }

  lemma ExcludeClauseWellFormed(excluded: seq<string>)
    ensures excluded != [] ==> (WellFormed(AllOf(NotLikePreds(excluded)))
      <==> forall j :: 0 <= j < |excluded| ==> LiteralSafe(Surround(excluded[j])))
  {
    var ps := NotLikePreds(excluded);
    if WellFormed(AllOf(ps)) {
      forall j | 0 <= j < |excluded| ensures LiteralSafe(Surround(excluded[j])) {
        assert WellFormedPred(ps[j]);
      }
    }
    if forall j :: 0 <= j < |excluded| ==> LiteralSafe(Surround(excluded[j])) {
      forall j | 0 <= j < |ps| ensures WellFormedPred(ps[j]) {
        assert ps[j] == NotLike(CategoriesColumn, Surround(excluded[j]));
      }
    }
  }

  /** A game passes exactly when some included category occurs in its
      categories as a LIKE pattern, no excluded one does, and its age lies in
      a selected bracket (any age when none is selected). The text means this
      only when some category is included and no category carries a quote or
      a backslash. */
  lemma IncludeWhereMeaning(included: seq<string>, excluded: seq<string>, ageFilter: seq<string>, g: Game)
    ensures Accepts(MultiWhere(included, excluded, ageFilter), g) <==>
      (exists i :: 0 <= i < |included| && LikeMatch(Surround(included[i]), g.categories))
      && (forall j :: 0 <= j < |excluded| ==> !LikeMatch(Surround(excluded[j]), g.categories))
      && AgeFilter.AgeAllowed(ageFilter, g.requiredAge)
    ensures WellFormedWhere(MultiWhere(included, excluded, ageFilter)) <==>
      included != []
      && (forall i :: 0 <= i < |included| ==> LiteralSafe(Surround(included[i])))
      && (forall j :: 0 <= j < |excluded| ==> LiteralSafe(Surround(excluded[j])))
  {
    IncludeClauseMeaning(included, g);
    ExcludeConjunctsMeaning(excluded, g);
    AgeFilter.AgeConjunctsMeaning(ageFilter, g);
    HoldsAppend(ExcludeConjuncts(excluded), AgeFilter.AgeConjuncts(ageFilter), g);
    WellFormedAppend(ExcludeConjuncts(excluded), AgeFilter.AgeConjuncts(ageFilter));
  }

  /** With no `%` or `_` in any category the LIKE tests are plain substring
      tests: a game passes when some included category occurs anywhere in its
      categories text, no excluded one does, and its age is allowed. */
  lemma IncludeWhereSubstrings(included: seq<string>, excluded: seq<string>, ageFilter: seq<string>, g: Game)
    requires forall i :: 0 <= i < |included| ==> NoWildcard(included[i])
    requires forall j :: 0 <= j < |excluded| ==> NoWildcard(excluded[j])
    ensures Accepts(MultiWhere(included, excluded, ageFilter), g) <==>
      (exists i :: 0 <= i < |included| && ContainsText(g.categories, included[i]))
      && (forall j :: 0 <= j < |excluded| ==> !ContainsText(g.categories, excluded[j]))
      && AgeFilter.AgeAllowed(ageFilter, g.requiredAge)
  {
    IncludeWhereMeaning(included, excluded, ageFilter, g);
    forall i | 0 <= i < |included|
      ensures LikeMatch(Surround(included[i]), g.categories) <==> ContainsText(g.categories, included[i])
    {
      LikeContains(included[i], g.categories);
    }
    forall j | 0 <= j < |excluded|
      ensures LikeMatch(Surround(excluded[j]), g.categories) <==> ContainsText(g.categories, excluded[j])
    {
      LikeContains(excluded[j], g.categories);
    }
  }

  /** With nothing included the WHERE text opens with the empty parentheses
      `()`, so the server rejects the query with a syntax error and no ranking
      is returned; the condition tree is not well-formed, and read as a
      condition it would accept no game. */
  lemma EmptyIncludeIsMalformed(excluded: seq<string>, ageFilter: seq<string>, ageFil: string, g: Game)
    ensures IncludeWhere(IncludeQuery([]), ExcludeQuery(excluded), ageFil)[..2] == "()"
    ensures !WellFormedWhere(MultiWhere([], excluded, ageFilter))
    ensures !Accepts(MultiWhere([], excluded, ageFilter), g)
  {
    var w := IncludeWhere(IncludeQuery([]), ExcludeQuery(excluded), ageFil);
    assert w == "()" + ("\n    " + OptionalAnd(ExcludeQuery(excluded)) + OptionalAnd(ageFil));
  }

  /** Excluding "RPG" also drops a game tagged only "RPGLike", even when
      "RPGLike" is included: the test is on the substring, not on the tag (the
      exact test, FIND_IN_SET, keeps them apart, as Sql.ExactVersusSubstring
      shows). */
  lemma ExcludeMatchesSubstrings()
    ensures !Accepts(MultiWhere(["RPGLike"], ["RPG"], []), Game("RPGLike", 0))
  {
    var cats := "RPGLike";
    assert NoWildcard("RPGLike") && NoWildcard("RPG");
    IncludeWhereSubstrings(["RPGLike"], ["RPG"], [], Game(cats, 0));
    assert IsPrefix("RPG", cats);
  }
}
