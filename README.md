# Game dashboard query filters: a verified model

This models the core of a Streamlit dashboard over a MySQL star schema of
Steam games (`dim_game` joined to `fact_sales`). The modelled code builds the
text of each report's SQL query and ranks the rows the server returns. The
two source files do this in different ways:

- `Functions/gameFunctions.py` (module `GameFunctions`). It requires one
  category, tested exactly with `FIND_IN_SET('<category>', column) > 0`.
- `functions.py` (module `Functions`). It takes lists of categories to
  include and exclude, tested as substrings with `LIKE '%c%'` and
  `NOT LIKE '%c%'`.

Both files share the following:

- The age-bracket fragment, built from UI labels
  (`"0-7 (Children)"`, `"8-15 (Teens)"`, `"16-21 (Young Adults)"`). It is
  modelled in module `AgeFilter`.
- The `if frag: query += " AND (frag)"` step.
- The fixed `GROUP BY … ORDER BY … DESC` ending.
- The pandas ranking, `nlargest(top_n, metric)`. The playtime reports run
  `dropna` on both playtime columns first. This is modelled in module
  `Ranking` by pandas' documented contract, which equals
  `sort_values(ascending=False).head(n)`.

Each `fetch_*` function is a method. It builds the query with the same
conditional appends as the source. It takes as a parameter the rows the
server would return. It is proved to produce a query-text function of its
inputs and the ranking of those rows.

Module `Sql` adds a meaning layer. Conditions are modelled as an AST:
`Pred` (BETWEEN, LIKE, NOT LIKE, FIND_IN_SET) inside a `Clause` (one test,
an OR or an AND) inside a `Where`. The layer covers:

- Rendering to text, and evaluation on a game's categories and required age.
- A well-formedness test. It holds when every spliced literal would be read
  back unchanged by MySQL's quoted-literal lexer, and OR/AND lists are
  non-empty.

The lemmas prove three things:

- The builders' text is the rendering of a particular condition.
- That condition accepts exactly the games the reports intend.
- The text means that condition only when the spliced categories contain no
  quote or backslash.

Module `Text` holds Python's `str.join`, substring tests, decimal rendering
and the comma split that `FIND_IN_SET` uses.

Three behaviours of the code at its edges, modelled as written:

- `top_n <= 0` gives no rows, and no error is raised (pandas `nlargest`).
- In `functions.py`, an empty include list gives `WHERE ()`, which MySQL
  rejects with a syntax error (functions.py:40-41).
- Unknown age labels are ignored (Functions/gameFunctions.py:12-17).

Category matching is exact-tag in `Functions/gameFunctions.py` (`FIND_IN_SET`)
and substring in `functions.py` (`LIKE '%c%'`), so there including or
excluding `RPG` also matches `RPGLike`.

## Model

| member | source | states |
|---|---|---|
| GameFunctions.GetAgeCategoryFilter | Functions/gameFunctions.py:9-19 | the appended clauses joined by " OR " equal the age fragment of the selection, and the result is empty exactly when no known label is selected |
| Functions.GetAgeCategoryFilter | functions.py:16-26 | the copy in this file behaves the same: equal to the age fragment, and empty exactly when no known label is selected |
| AgeFilter.SelectedBucketsSpec | Functions/gameFunctions.py:12-17 | a bracket contributes exactly when its label is selected; the brackets come in the fixed order children, teens, young adults, each once, whatever the selection's order |
| AgeFilter.AgeFragmentDependsOnKnownLabelsOnly | Functions/gameFunctions.py:12-19 | selections with the same known labels give the same fragment, so order, repetition and unrecognised labels change nothing |
| AgeFilter.AgeFragmentEmptyIff | Functions/gameFunctions.py:9-19 | the fragment is empty (no age restriction) exactly when no known label is selected |
| AgeFilter.ClauseTextIsBetween | Functions/gameFunctions.py:13-17 | each bracket's clause is the rendering of `` `Required Age` BETWEEN lo AND hi `` with (lo, hi) one of (0,7), (8,15), (16,21) |
| AgeFilter.AgeFragmentRenders | Functions/gameFunctions.py:12-19 | the fragment is the " OR " rendering of the selected brackets' BETWEEN tests |
| AgeFilter.AgeConjunctsMeaning | Functions/gameFunctions.py:12-19 | the appended age condition accepts an age exactly when it lies, bounds included, in some selected bracket, or any age when none is selected; it is always well-formed |
| AgeFilter.TeensScenario | Functions/gameFunctions.py:14-15 | with only teens selected, ages 5 and 20 are rejected and 10 accepted |
| GameFunctions.AssembleQuery | Functions/gameFunctions.py:50-71 | the query is the report's SELECT text, the category test, ` AND (fragment)` only when the fragment is non-empty, then the report's GROUP BY text |
| GameFunctions.FetchGamesHighestPeakCcu | Functions/gameFunctions.py:49-79 | the query is the peak SELECT, the category test, the age group only when the fragment is non-empty, then the GROUP BY/ORDER BY text; the result is the `nlargest` ranking of the returned rows |
| GameFunctions.FetchGamesHighestPlaytime | Functions/gameFunctions.py:84-119 | the query has the same shape with the playtime SELECT and ordering; the result is the ranking after incomplete rows are dropped, has no row missing a playtime, and has at most `top_n` rows |
| GameFunctions.FetchGamesRequiredAge | Functions/gameFunctions.py:137-160 | the query tests `` `categories` `` on `dim_game` alone, then appends the optional age group and the count ordering; the result is the `nlargest` ranking of the returned counts |
| GameFunctions.RequiredAgeDefaultCount | Functions/gameFunctions.py:137 | called without `top_n`, the age report keeps min(5, number of rows) rows |
| GameFunctions.QueriesEndWithOrder | Functions/gameFunctions.py:66-71 | each of the three queries ends with its fixed GROUP BY ... ORDER BY ... DESC text, after any age fragment |
| GameFunctions.CategoryWhereRenders | Functions/gameFunctions.py:58-64 | the WHERE text is the category test followed by ` AND (fragment)` exactly when some bracket is selected, i.e. the rendering of the category-and-age condition |
| GameFunctions.CategoryWhereMeaning | Functions/gameFunctions.py:59 | a game passes exactly when the category is one of its comma-separated tags and its age is allowed; the condition is well-formed exactly when the category has no quote or backslash |
| GameFunctions.CategoryLiteral | Functions/gameFunctions.py:59 | the category is spliced verbatim between quotes: without quote or backslash MySQL reads it back and continues after it; with a quote it is not read back as itself |
| Sql.SafeLiteralReadsBack | Functions/gameFunctions.py:59 | text without quote or backslash, followed by a closing quote, is read back as exactly that literal with the rest left over |
| Sql.QuoteBreaksLiteral | Functions/gameFunctions.py:59 | text containing a quote is not read back as itself followed by the rest |
| Sql.LoneQuoteEndsLiteral | Functions/gameFunctions.py:59 | a lone quote (one not followed by another quote) inside the spliced text closes the literal there, and everything after it, the rest of the category included, is read as SQL |
| Sql.PositionOf | Functions/gameFunctions.py:59 | FIND_IN_SET's position is positive exactly when the item is one of the pieces, and then it points at the first such piece |
| Sql.FindInSetPositiveIff | Functions/gameFunctions.py:59 | `FIND_IN_SET(c, s) > 0` exactly when `s` is non-empty and `c` is one of its comma-separated pieces |
| Sql.FindInSetCommaItem | Functions/gameFunctions.py:59 | a category containing a comma never matches |
| Sql.ExactVersusSubstring | functions.py:29-30 | "RPG" is not a tag of "RPGLike" for FIND_IN_SET, yet it is a substring of it |
| Sql.LikeContains | functions.py:29-30 | `s LIKE '%c%'`, with no wildcard in `c`, holds exactly when `c` occurs in `s` |
| Sql.RenderEmptyIff | functions.py:29-30 | an OR/AND list renders as the empty string exactly when it has no operand |
| Sql.EmptyOperandsRenderEmptyParens | functions.py:40-41 | a list with no operand inside the parentheses gives `()`, and is not well-formed |
| Sql.OptionalAndRenders | Functions/gameFunctions.py:63-64 | appending ` AND (text)` only when the text is non-empty is the rendering of that text as a further condition, or of none |
| Sql.AndGroupsAppend | functions.py:44-48 | the appended groups of two condition lists are the groups of the first followed by those of the second |
| Ranking.SortDescending | Functions/gameFunctions.py:79 | the sort is a permutation of the rows in descending order of the metric, missing values last |
| Ranking.NLargest | Functions/gameFunctions.py:79 | `nlargest(n)` keeps min(n, rows) rows, or none when n <= 0, in descending order, drawn from the input, and every row left out ranks no higher than every row kept |
| Ranking.NLargestIdempotent | Functions/gameFunctions.py:79 | ranking a ranked result again with the same n changes nothing |
| Ranking.TopTwoScenario | Functions/gameFunctions.py:79 | of peaks 250 and 300, the top two list 300 first |
| Ranking.DropIncomplete | Functions/gameFunctions.py:117 | `dropna` keeps every complete row as often as it occurs and no row missing the average or median |
| Ranking.PlaytimeTopSpec | Functions/gameFunctions.py:117-119 | the playtime ranking has no row missing a playtime, at most n rows, descending order, rows from the input, and every complete row left out ranks no higher than every row kept |
| Functions.LikeTexts | functions.py:29 | exactly one `g.categories LIKE '%c%'` term per included category, in list order |
| Functions.NotLikeTexts | functions.py:30 | exactly one `g.categories NOT LIKE '%c%'` term per excluded category, in list order |
| Functions.LikeTextsRender | functions.py:29-30 | each written term is the rendering of the LIKE or NOT LIKE test on the category surrounded by `%` |
| Functions.IncludeQuery | functions.py:29 | `include_query` is empty exactly when nothing is included, and is the " OR " rendering of the include tests |
| Functions.ExcludeQuery | functions.py:30 | `exclude_query` is empty exactly when nothing is excluded, and is the " AND " rendering of the exclude tests |
| Functions.AssembleQuery | functions.py:32-55 | the query is the SELECT, the include group in parentheses even when empty, the exclude group only when non-empty, the age group only when non-empty, then the ordering text |
| Functions.FetchGamesHighestPeakCcu | functions.py:28-69 | the peak query is assembled in that order around the peak SELECT and ordering, and the result is the `nlargest` ranking of the returned rows |
| Functions.FetchGamesHighestPlaytime | functions.py:75-121 | the playtime query is assembled in that order, and the result is the ranking after incomplete rows are dropped, with no row missing a playtime and at most `top_n` rows |
| Functions.QueriesEndWithOrder | functions.py:50-55 | both queries end with their GROUP BY ... ORDER BY ... DESC text, after the exclude and age groups |
| Functions.IncludeWhereRenders | functions.py:40-48 | the WHERE text is the parenthesised include OR followed by the exclude AND and the age OR as ` AND (...)` groups, each present exactly when non-empty |
| Functions.IncludeClauseMeaning | functions.py:29 | the include OR holds exactly when some included pattern matches, and is well-formed exactly when something is included and every pattern is a safe literal |
| Functions.ExcludeConjunctsMeaning | functions.py:30 | the exclude condition holds exactly when no excluded pattern matches |
| Functions.IncludeWhereMeaning | functions.py:29-48 | a game passes exactly when some included pattern matches, none of the excluded ones does, and its age is allowed; the text means this exactly when something is included and no category has a quote or backslash |
| Functions.IncludeWhereSubstrings | functions.py:29-30 | without `%` or `_` in the categories, a game passes exactly when some included category occurs in its categories text, no excluded one does, and its age is allowed |
| Functions.EmptyIncludeIsMalformed | functions.py:40-41 | with nothing included the WHERE text opens with `()`, so the server rejects the query; the condition tree is not well-formed, and as a condition it would accept no game |
| Functions.ExcludeMatchesSubstrings | functions.py:30 | excluding "RPG" rejects a game tagged only "RPGLike" even when "RPGLike" is included |

## Left out

- Query execution and connections are not modelled. This covers `hf.execute_query`, `create_connection`, the cursor and `fetchall`. The rows a query returns are a parameter of each `fetch_*` method. helperFunctions is not part of this model.
- The aggregation inside MySQL is not modelled: `MAX`, `AVG`, `COUNT` and `GROUP BY`. The model states which rows the WHERE lets through. It does not state which aggregated rows the server returns.
- Charts are not modelled: plotly figures, `melt` and layout. They are rendering only.
- Streamlit widgets are not modelled: `display_game_data`, `display_game_datas` and Views/ViewByGenres.py. They are UI wiring.
- DataFrame construction and `to_numeric(errors='coerce')` are not modelled. A value that cannot be coerced is a missing metric (`None`).
- Metrics are exact reals. float64 rounding is not modelled.
- Comparisons use a binary collation. MySQL's default case-insensitive collation is not modelled.
- A NULL required age is not modelled. Ages are integers.
- Ranking.NLargest: the model follows pandas' documented equivalence with `sort_values(ascending=False).head(n)`. Rows with equal metrics keep input order by construction, but no contract states it. When there are fewer than n numeric rows, missing metrics may be kept at the end. pandas' implementation can leave them out instead when n is below the row count.
- Ranking.DropIncomplete: the contract states which rows are kept and how often, not that they keep their input order; the definition keeps it.
- Sql.LikeContains: a backslash inside a LIKE pattern is MySQL's escape character. It is not modelled, and such a category is outside well-formedness.
- Sql.FindInSetPositiveIff: follows MySQL's documented `FIND_IN_SET` behaviour. A NULL argument is not modelled.
- The SQL text is compared as characters. Whitespace is kept exactly as the source writes it, but the model does not parse beyond quoted literals.
