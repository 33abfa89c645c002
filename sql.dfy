/** The part of MySQL's meaning that the dashboard's WHERE fragments depend on:
    how a single-quoted literal is read back, `LIKE` with `%`/`_` wildcards,
    `FIND_IN_SET`, `BETWEEN`, and a small condition tree whose rendering is the
    text the builders produce and whose evaluation is what the server filters by. */
module Sql {
  import opened Text

  // ---------------------------------------------------------------------------
  // Quoted literals
  // ---------------------------------------------------------------------------

  /** What a backslash escape `\x` stands for inside a literal (MySQL's default
      SQL mode): `\%` and `\_` keep their backslash, the letters of the control
      escapes give control characters, any other character stands for itself. */
  function EscapeValue(x: char): string
  {
    if x == '%' || x == '_' then ['\\', x]
    else if x == '0' then ['\0']
    else if x == 'n' then ['\n']
    else if x == 'r' then ['\r']
    else if x == 't' then ['\t']
    else if x == 'b' then [8 as char]
    else if x == 'Z' then [26 as char]
    else [x]
  }

  function Prepend(p: string, r: Option<(string, string)>): Option<(string, string)>
  {
    match r
    case None => None
    case Some((lit, rest)) => Some((p + lit, rest))
  }

  /** Reads the body of a single-quoted literal whose opening quote has just been
      consumed: the value of the literal and the text after its closing quote,
      or None when the literal is never closed. `''` stands for one quote. */
  function ReadQuoted(s: string): Option<(string, string)>
    decreases |s|
  {
    if s == [] then None
    else if s[0] == '\'' then
      if |s| >= 2 && s[1] == '\'' then Prepend("'", ReadQuoted(s[2..]))
      else Some(("", s[1..]))
    else if s[0] == '\\' then
      if |s| >= 2 then Prepend(EscapeValue(s[1]), ReadQuoted(s[2..])) else None
    else Prepend([s[0]], ReadQuoted(s[1..]))
  }

  /** A literal consumes at least its value, its closing quote and what follows;
      when nothing more is consumed, the text was the value, one quote and the
      rest, and the value holds no quote. */
  lemma {:induction false} ReadQuotedConsumes(s: string)
    ensures ReadQuoted(s).Some? ==>
      var (lit, rest) := ReadQuoted(s).value;
      && |lit| + 1 + |rest| <= |s|
      && (|lit| + 1 + |rest| == |s| ==> s == lit + "'" + rest && '\'' !in lit)
    decreases |s|
  {
    if s == [] {
    } else if s[0] == '\'' {
      if |s| >= 2 && s[1] == '\'' {
        ReadQuotedConsumes(s[2..]);
      }
    } else if s[0] == '\\' {
      if |s| >= 2 {
        ReadQuotedConsumes(s[2..]);
        if ReadQuoted(s).Some? {
          var (lit, rest) := ReadQuoted(s).value;
          var (lit', rest') := ReadQuoted(s[2..]).value;
          if |lit| + 1 + |rest| == |s| {
            assert EscapeValue(s[1]) == s[..2];
            assert s == s[..2] + s[2..];
          }
        }
      }
    } else {
      ReadQuotedConsumes(s[1..]);
      if ReadQuoted(s).Some? {
        var (lit, rest) := ReadQuoted(s).value;
        if |lit| + 1 + |rest| == |s| {
          assert s == [s[0]] + s[1..];
        }
      }
    }
  }

  /** Text that a single-quoted literal carries unchanged: no quote, no backslash. */
  predicate LiteralSafe(c: string)
  {
    '\'' !in c && '\\' !in c
  }

  /** Splicing safe text between quotes is read back as exactly that text, and
      the server continues right after the closing quote. */
  lemma {:induction false} SafeLiteralReadsBack(c: string, tail: string)
    requires LiteralSafe(c)
    requires tail == [] || tail[0] != '\''
    ensures ReadQuoted(c + "'" + tail) == Some((c, tail))
    decreases |c|
  {
    if c == [] {
      assert c + "'" + tail == ['\''] + tail;
    } else {
      assert (c + "'" + tail)[1..] == c[1..] + "'" + tail;
      assert LiteralSafe(c[1..]) by {
        assert forall k :: 0 <= k < |c[1..]| ==> c[1..][k] == c[k + 1];
      }
      SafeLiteralReadsBack(c[1..], tail);
      assert [c[0]] + c[1..] == c;
    }
  }

  /** Spliced text that contains a quote is not read back as itself (a doubled
      quote is read as one quote, so the literal read is a different text). */
  lemma QuoteBreaksLiteral(c: string, tail: string)
    requires '\'' in c
    ensures ReadQuoted(c + "'" + tail) != Some((c, tail))
  {
    var s := c + "'" + tail;
    ReadQuotedConsumes(s);
  }

  /** A lone quote inside the spliced text closes the literal early: what
      precedes it is the literal, and everything after it, the rest of the
      spliced text included, is read as SQL. */
  lemma LoneQuoteEndsLiteral(a: string, b: string, tail: string)
    requires LiteralSafe(a)
    requires b != [] && b[0] != '\''
    ensures ReadQuoted((a + "'" + b) + "'" + tail) == Some((a, b + "'" + tail))
  {
    assert (a + "'" + b) + "'" + tail == a + "'" + (b + "'" + tail);
    SafeLiteralReadsBack(a, b + "'" + tail);
  }

  // ---------------------------------------------------------------------------
  // LIKE (section 8.5 of ISO/IEC 9075:1992)
  // ---------------------------------------------------------------------------

  /** `s LIKE pattern`: `%` matches any run of characters, `_` any one character,
      every other character itself. */
  predicate LikeMatch(pattern: string, s: string)
    decreases |pattern| + |s|
  {
    if pattern == [] then s == []
    else if pattern[0] == '%' then
      LikeMatch(pattern[1..], s) || (s != [] && LikeMatch(pattern, s[1..]))
    else if pattern[0] == '_' then s != [] && LikeMatch(pattern[1..], s[1..])
    else s != [] && s[0] == pattern[0] && LikeMatch(pattern[1..], s[1..])
  }

  predicate NoWildcard(c: string)
  {
    '%' !in c && '_' !in c
  }

  lemma {:induction false} PercentMatchesAll(s: string)
    ensures LikeMatch("%", s)
    decreases |s|
  {
    if s != [] {
      PercentMatchesAll(s[1..]);
    }
  }

  /** `c%` matches exactly the texts that start with `c`. */
  lemma {:induction false} LikePrefix(c: string, s: string)
    requires NoWildcard(c)
    ensures LikeMatch(c + "%", s) <==> IsPrefix(c, s)
    decreases |c|
  {
    if c == [] {
      assert c + "%" == "%";
      PercentMatchesAll(s);
    } else {
      assert (c + "%")[1..] == c[1..] + "%";
      assert NoWildcard(c[1..]) by {
        assert forall k :: 0 <= k < |c[1..]| ==> c[1..][k] == c[k + 1];
      }
      if s != [] {
        LikePrefix(c[1..], s[1..]);
        assert IsPrefix(c, s) <==> s[0] == c[0] && IsPrefix(c[1..], s[1..]) by {
          if IsPrefix(c, s) {
            assert s[1..][..|c[1..]|] == s[..|c|][1..];
          }
          if s[0] == c[0] && IsPrefix(c[1..], s[1..]) {
            assert s[..|c|] == [s[0]] + s[1..][..|c[1..]|];
            assert c == [c[0]] + c[1..];
          }
        }
      }
    }
  }

  /** `%c%` is a substring test when `c` holds no wildcard. */
  lemma {:induction false} LikeContains(c: string, s: string)
    requires NoWildcard(c)
    ensures LikeMatch("%" + c + "%", s) <==> ContainsText(s, c)
    decreases |s|
  {
    var p := "%" + c + "%";
    assert p[1..] == c + "%";
    LikePrefix(c, s);
    if s != [] {
      LikeContains(c, s[1..]);
    }
  }

  // ---------------------------------------------------------------------------
  // FIND_IN_SET (MySQL string function)
  // ---------------------------------------------------------------------------

  /** 1-based position of the first piece equal to `item`, 0 when there is none. */
  function PositionOf(item: string, pieces: seq<string>): (pos: nat)
    ensures pos > 0 <==> item in pieces
    ensures pos > 0 ==> pos <= |pieces| && pieces[pos - 1] == item && item !in pieces[..pos - 1]
  {
    if pieces == [] then 0
    else if pieces[0] == item then 1
    else
      var p := PositionOf(item, pieces[1..]);
      assert pieces == [pieces[0]] + pieces[1..];
      if p == 0 then 0
      else
        assert pieces[..p] == [pieces[0]] + pieces[1..][..p - 1];
        p + 1
  }

  /** `FIND_IN_SET(item, list)`: the position of `item` among the comma-separated
      pieces of `list`; 0 when it is absent or `list` is empty. */
  function FindInSet(item: string, list: string): nat
  {
    if list == "" then 0 else PositionOf(item, SplitComma(list))
  }

  /** `FIND_IN_SET(item, list) > 0` is exact membership among the pieces. */
  lemma FindInSetPositiveIff(item: string, list: string)
    ensures FindInSet(item, list) > 0 <==> list != "" && item in SplitComma(list)
  {
  }

  /** An item with a comma is never found: no piece contains one. */
  lemma FindInSetCommaItem(item: string, list: string)
    requires ',' in item
    ensures FindInSet(item, list) == 0
  {
    SplitCommaPiecesHaveNoComma(list);
  }

  /** Exact membership and substring differ: "RPG" occurs inside "RPGLike" but is
      not one of its pieces. */
  lemma ExactVersusSubstring()
    ensures FindInSet("RPG", "RPGLike") == 0
    ensures ContainsText("RPGLike", "RPG")
  {
    SplitCommaNoComma("RPGLike");
    assert IsPrefix("RPG", "RPGLike");
  }

  // ---------------------------------------------------------------------------
  // Conditions
  // ---------------------------------------------------------------------------

  /** The columns of one joined dim_game row that the conditions read: every
      spelling of the categories column refers to `categories`, and the age
      column to `requiredAge`. */
  datatype Game = Game(categories: string, requiredAge: int)

  /** An atomic test; `column` is the column's spelling in the query text. */
  datatype Pred =
    | Between(column: string, lo: nat, hi: nat)
    | Like(column: string, pattern: string)
    | NotLike(column: string, pattern: string)
    | FindInSetPositive(item: string, column: string)

  /** A clause is one test, or tests joined by OR, or tests joined by AND. */
  datatype Clause =
    | Single(p: Pred)
    | AnyOf(ps: seq<Pred>)
    | AllOf(ps: seq<Pred>)

  /** A WHERE condition: a leading clause and further clauses, each appended as
      ` AND (...)`. */
  datatype Where = Where(lead: Clause, more: seq<Clause>)

  function RenderPred(p: Pred): string
  {
    match p
    case Between(column, lo, hi) => column + " BETWEEN " + NatText(lo) + " AND " + NatText(hi)
    case Like(column, pattern) => column + " LIKE '" + pattern + "'"
    case NotLike(column, pattern) => column + " NOT LIKE '" + pattern + "'"
    case FindInSetPositive(item, column) => "FIND_IN_SET('" + item + "', " + column + ") > 0"
  }

  function RenderEach(ps: seq<Pred>): (texts: seq<string>)
    ensures |texts| == |ps|
    ensures forall i :: 0 <= i < |ps| ==> texts[i] == RenderPred(ps[i])
  {
    if ps == [] then [] else [RenderPred(ps[0])] + RenderEach(ps[1..])
  }

  function Render(c: Clause): string
  {
    match c
    case Single(p) => RenderPred(p)
    case AnyOf(ps) => Join(" OR ", RenderEach(ps))
    case AllOf(ps) => Join(" AND ", RenderEach(ps))
  }

  /** The further clauses of a WHERE, as the builders append them. */
  function AndGroups(cs: seq<Clause>): string
  {
    if cs == [] then "" else " AND (" + Render(cs[0]) + ")" + AndGroups(cs[1..])
  }

  /** The builders' `if text: query += f" AND ({text})"`. */
  function OptionalAnd(text: string): string
  {
    if text != "" then " AND (" + text + ")" else ""
  }

  /** Appending one clause's text when it is non-empty, and nothing otherwise,
      is the rendering of that clause as a further condition. */
  lemma OptionalAndRenders(cs: seq<Clause>, text: string)
    requires (cs == [] && text == "") || (|cs| == 1 && text == Render(cs[0]) && text != "")
    ensures OptionalAnd(text) == AndGroups(cs)
  {
    if cs != [] {
      assert cs[1..] == [];
    }
  }

  lemma {:induction false} AndGroupsAppend(a: seq<Clause>, b: seq<Clause>)
    ensures AndGroups(a + b) == AndGroups(a) + AndGroups(b)
  {
    if a != [] {
      assert (a + b)[1..] == a[1..] + b;
      AndGroupsAppend(a[1..], b);
    } else {
      assert a + b == b;
    }
  }

  /** BETWEEN is inclusive at both ends (section 8.3 of ISO/IEC 9075:1992). */
  predicate HoldsPred(p: Pred, g: Game)
  {
    match p
    case Between(_, lo, hi) => lo <= g.requiredAge <= hi
    case Like(_, pattern) => LikeMatch(pattern, g.categories)
    case NotLike(_, pattern) => !LikeMatch(pattern, g.categories)
    case FindInSetPositive(item, _) => FindInSet(item, g.categories) > 0
  }

  predicate Holds(c: Clause, g: Game)
  {
    match c
    case Single(p) => HoldsPred(p, g)
    case AnyOf(ps) => exists i :: 0 <= i < |ps| && HoldsPred(ps[i], g)
    case AllOf(ps) => forall i :: 0 <= i < |ps| ==> HoldsPred(ps[i], g)
  }

  /** The rows a WHERE lets through: the leading clause and every further one. */
  predicate Accepts(w: Where, g: Game)
  {
    Holds(w.lead, g) && forall i :: 0 <= i < |w.more| ==> Holds(w.more[i], g)
  }

  /** Every clause of `a + b` holds exactly when every clause of `a` and every
      clause of `b` does. */
  lemma HoldsAppend(a: seq<Clause>, b: seq<Clause>, g: Game)
    ensures (forall k :: 0 <= k < |a + b| ==> Holds((a + b)[k], g))
      <==> (forall k :: 0 <= k < |a| ==> Holds(a[k], g)) && (forall k :: 0 <= k < |b| ==> Holds(b[k], g))
  {
    var ab := a + b;
    if (forall k :: 0 <= k < |a| ==> Holds(a[k], g)) && (forall k :: 0 <= k < |b| ==> Holds(b[k], g)) {
      forall k | 0 <= k < |ab| ensures Holds(ab[k], g) {
        if k >= |a| {
          assert ab[k] == b[k - |a|];
        }
      }
    }
    if forall k :: 0 <= k < |ab| ==> Holds(ab[k], g) {
      forall k | 0 <= k < |b| ensures Holds(b[k], g) {
        assert ab[|a| + k] == b[k];
      }
      forall k | 0 <= k < |a| ensures Holds(a[k], g) {
        assert ab[k] == a[k];
      }
    }
  }

  /** Every clause of `a + b` is well-formed exactly when every clause of `a`
      and every clause of `b` is. */
  lemma WellFormedAppend(a: seq<Clause>, b: seq<Clause>)
    ensures (forall k :: 0 <= k < |a + b| ==> WellFormed((a + b)[k]))
      <==> (forall k :: 0 <= k < |a| ==> WellFormed(a[k])) && (forall k :: 0 <= k < |b| ==> WellFormed(b[k]))
  {
    var ab := a + b;
    if (forall k :: 0 <= k < |a| ==> WellFormed(a[k])) && (forall k :: 0 <= k < |b| ==> WellFormed(b[k])) {
      forall k | 0 <= k < |ab| ensures WellFormed(ab[k]) {
        if k >= |a| {
          assert ab[k] == b[k - |a|];
        }
      }
    }
    if forall k :: 0 <= k < |ab| ==> WellFormed(ab[k]) {
      forall k | 0 <= k < |b| ensures WellFormed(b[k]) {
        assert ab[|a| + k] == b[k];
      }
      forall k | 0 <= k < |a| ensures WellFormed(a[k]) {
        assert ab[k] == a[k];
      }
    }
  }

  /** A test whose rendering the server reads back as that test: every spliced
      literal is carried unchanged. */
  predicate WellFormedPred(p: Pred)
  {
    match p
    case Between(_, _, _) => true
    case Like(_, pattern) => LiteralSafe(pattern)
    case NotLike(_, pattern) => LiteralSafe(pattern)
    case FindInSetPositive(item, _) => LiteralSafe(item)
  }

  /** OR and AND need at least one operand: an empty list renders as nothing. */
  predicate WellFormed(c: Clause)
  {
    match c
    case Single(p) => WellFormedPred(p)
    case AnyOf(ps) => ps != [] && forall i :: 0 <= i < |ps| ==> WellFormedPred(ps[i])
    case AllOf(ps) => ps != [] && forall i :: 0 <= i < |ps| ==> WellFormedPred(ps[i])
  }

  predicate WellFormedWhere(w: Where)
  {
    WellFormed(w.lead) && forall i :: 0 <= i < |w.more| ==> WellFormed(w.more[i])
  }

  /** Every rendered test is non-empty text. */
  lemma RenderPredNonEmpty(p: Pred)
    ensures RenderPred(p) != ""
  {
    match p
    case Between(column, lo, hi) =>
      assert |RenderPred(p)| >= |" BETWEEN "|;
    case Like(column, pattern) =>
      assert |RenderPred(p)| >= |" LIKE '"|;
    case NotLike(column, pattern) =>
      assert |RenderPred(p)| >= |" NOT LIKE '"|;
    case FindInSetPositive(item, column) =>
      assert |RenderPred(p)| >= |"FIND_IN_SET('"|;
  }

  /** An OR/AND clause renders as nothing exactly when it has no operand. */
  lemma RenderEmptyIff(c: Clause)
    requires c.AnyOf? || c.AllOf?
    ensures Render(c) == "" <==> c.ps == []
  {
    var texts := RenderEach(c.ps);
    forall i | 0 <= i < |texts| ensures texts[i] != "" {
      RenderPredNonEmpty(c.ps[i]);
    }
    JoinEmptyIff(if c.AnyOf? then " OR " else " AND ", texts);
  }

  /** A clause with no OR/AND operand leaves the surrounding parentheses empty,
      `()`, which MySQL rejects as a syntax error. */
  lemma EmptyOperandsRenderEmptyParens(c: Clause)
    requires (c.AnyOf? || c.AllOf?) && c.ps == []
    ensures "(" + Render(c) + ")" == "()"
    ensures !WellFormed(c)
  {
  }
}
