/** What the reports do with the rows the server returns: drop the rows with a
    missing playtime, then keep the `n` largest by the report's metric. The
    ranking is pandas' `DataFrame.nlargest(n, column)`, which pandas documents as
    `sort_values(column, ascending=False).head(n)`: missing values sort last and
    `n <= 0` gives no rows. The order among rows with equal values is not
    promised there; the model's sort happens to keep input order, but no
    contract states it. */
module Ranking {
  import opened Text

  /** One result row: what it describes, and the metric it is ranked by. None is
      a NULL, or a value that numeric coercion turned into NaN. */
  datatype Row<P> = Row(payload: P, metric: Option<real>)

  /** `a` may come before `b`: descending by metric, missing metrics last. */
  predicate RanksAtLeast<P>(a: Row<P>, b: Row<P>)
  {
    b.metric.None? || (a.metric.Some? && a.metric.value >= b.metric.value)
  }

  predicate Descending<P>(rs: seq<Row<P>>)
  {
    forall i, j :: 0 <= i < j < |rs| ==> RanksAtLeast(rs[i], rs[j])
  }

  function Min(a: int, b: int): int
  {
    if a <= b then a else b
  }

  /** Puts `x` in front of the first row it ranks at least as high as; `x` is
      earlier in the input than every row of `rs`, so ties keep input order. */
  function Insert<P(==)>(x: Row<P>, rs: seq<Row<P>>): (r: seq<Row<P>>)
    ensures multiset(r) == multiset(rs) + multiset{x}
  {
    if rs == [] then [x]
    else if RanksAtLeast(x, rs[0]) then [x] + rs
    else
      assert rs == [rs[0]] + rs[1..];
      [rs[0]] + Insert(x, rs[1..])
  }

  /** A row that ranks at least as high as every row of a descending sequence
      can be put in front of it. */
  lemma DescendingCons<P>(h: Row<P>, t: seq<Row<P>>)
    requires Descending(t)
    requires forall k :: 0 <= k < |t| ==> RanksAtLeast(h, t[k])
    ensures Descending([h] + t)
  {
    var s := [h] + t;
    forall i, j | 0 <= i < j < |s| ensures RanksAtLeast(s[i], s[j]) {
      assert s[j] == t[j - 1];
      if i > 0 {
        assert s[i] == t[i - 1];
      }
    }
  }

  lemma {:induction false} InsertKeepsDescending<P>(x: Row<P>, rs: seq<Row<P>>)
    requires Descending(rs)
    ensures Descending(Insert(x, rs))
  {
    if rs == [] {
    } else if RanksAtLeast(x, rs[0]) {
      forall k | 0 <= k < |rs| ensures RanksAtLeast(x, rs[k]) {
        assert k == 0 || RanksAtLeast(rs[0], rs[k]);
      }
      DescendingCons(x, rs);
    } else {
      var tail := rs[1..];
      assert Descending(tail) by {
        forall i, j | 0 <= i < j < |tail| ensures RanksAtLeast(tail[i], tail[j]) {
          assert tail[i] == rs[i + 1] && tail[j] == rs[j + 1];
        }
      }
      InsertKeepsDescending(x, tail);
      var t := Insert(x, tail);
      forall k | 0 <= k < |t| ensures RanksAtLeast(rs[0], t[k]) {
        assert t[k] in multiset(t);
        if t[k] != x {
          assert t[k] in multiset(tail);
          var m :| 0 <= m < |tail| && tail[m] == t[k];
          assert rs[m + 1] == t[k];
        }
      }
      DescendingCons(rs[0], t);
    }
  }

  /** Stable sort, largest metric first, missing metrics last. */
  function SortDescending<P(==)>(rows: seq<Row<P>>): (sorted: seq<Row<P>>)
    ensures multiset(sorted) == multiset(rows)
    ensures Descending(sorted)
  {
    if rows == [] then []
    else
      assert rows == [rows[0]] + rows[1..];
      var rest := SortDescending(rows[1..]);
      InsertKeepsDescending(rows[0], rest);
      Insert(rows[0], rest)
  }

  /** Every row cut off the end of a descending sequence ranks no higher than
      every row kept. */
  lemma DescendingPrefixDominates<P>(s: seq<Row<P>>, k: nat)
    requires Descending(s) && k <= |s|
    ensures forall x, y :: x in multiset(s) - multiset(s[..k]) && y in s[..k] ==> RanksAtLeast(y, x)
  {
    assert s == s[..k] + s[k..];
    assert multiset(s) - multiset(s[..k]) == multiset(s[k..]);
    forall x, y | x in multiset(s) - multiset(s[..k]) && y in s[..k] ensures RanksAtLeast(y, x) {
      assert x in s[k..];
      var j :| 0 <= j < |s[k..]| && s[k..][j] == x;
      var i :| 0 <= i < k && s[..k][i] == y;
      assert s[i] == y && s[k + j] == x;
    }
  }

  /** `nlargest(n)`: at most `n` rows, in descending order, drawn from the input,
      and every row left out ranks no higher than every row kept. */
  function NLargest<P(==)>(rows: seq<Row<P>>, n: int): (top: seq<Row<P>>)
    ensures |top| == if n <= 0 then 0 else Min(n, |rows|)
    ensures Descending(top)
    ensures multiset(top) <= multiset(rows)
    ensures forall x, y :: x in multiset(rows) - multiset(top) && y in top ==> RanksAtLeast(y, x)
  {
    if n <= 0 then []
    else
      var sorted := SortDescending(rows);
      var k := Min(n, |sorted|);
      assert sorted == sorted[..k] + sorted[k..];
      DescendingPrefixDominates(sorted, k);
      sorted[..k]
  }

  /** Sorting what is already in order changes nothing. */
  lemma {:induction false} SortDescendingOfDescending<P>(s: seq<Row<P>>)
    requires Descending(s)
    ensures SortDescending(s) == s
  {
    if s != [] {
      assert Descending(s[1..]) by {
        forall i, j | 0 <= i < j < |s[1..]| ensures RanksAtLeast(s[1..][i], s[1..][j]) {
          assert s[1..][i] == s[i + 1] && s[1..][j] == s[j + 1];
        }
      }
      SortDescendingOfDescending(s[1..]);
      assert s == [s[0]] + s[1..];
    }
  }

  /** Ranking a ranked result again with the same `n` returns it unchanged. */
  lemma NLargestIdempotent<P>(rows: seq<Row<P>>, n: int)
    ensures NLargest(NLargest(rows, n), n) == NLargest(rows, n)
  {
    var top := NLargest(rows, n);
    if n > 0 {
      SortDescendingOfDescending(top);
      assert top[..|top|] == top;
    }
  }

  /** Two games ranked for the top two: the larger peak comes first. */
  lemma TopTwoScenario()
    ensures NLargest([Row("Game A", Some(250.0)), Row("Game B", Some(300.0))], 2)
         == [Row("Game B", Some(300.0)), Row("Game A", Some(250.0))]
  {
    var a, b := Row("Game A", Some(250.0)), Row("Game B", Some(300.0));
    assert [a, b][1..] == [b];
    assert SortDescending([b]) == [b];
    assert SortDescending([a, b]) == Insert(a, [b]) == [b, a];
  }

  // ---------------------------------------------------------------------------
  // The playtime report's null drop
  // ---------------------------------------------------------------------------

  /** A playtime row: the game, and its median playtime; the row's metric is
      the average playtime, by which the report ranks. */
  datatype Playtime = Playtime(name: string, median: Option<real>)

  /** Neither the average nor the median playtime is missing. */
  predicate Complete(r: Row<Playtime>)
  {
    r.metric.Some? && r.payload.median.Some?
  }

  /** `dropna(subset=[average, median])`: the complete rows, each as often as it
      occurs; that the input order is kept is by construction and not stated. */
  function DropIncomplete(rows: seq<Row<Playtime>>): (kept: seq<Row<Playtime>>)
    ensures forall i :: 0 <= i < |kept| ==> Complete(kept[i])
    ensures forall x :: multiset(kept)[x] == if Complete(x) then multiset(rows)[x] else 0
  {
    if rows == [] then []
    else
      assert rows == [rows[0]] + rows[1..];
      (if Complete(rows[0]) then [rows[0]] else []) + DropIncomplete(rows[1..])
  }

  /** The playtime report's ranking: drop incomplete rows, then `nlargest` by the
      average. */
  function PlaytimeTop(rows: seq<Row<Playtime>>, n: int): seq<Row<Playtime>>
  {
    NLargest(DropIncomplete(rows), n)
  }

  /** No row with a missing average or median survives the playtime ranking; the
      result has at most `n` rows, comes from the input, is in descending order,
      and every complete row left out ranks no higher than every row kept. */
  lemma PlaytimeTopSpec(rows: seq<Row<Playtime>>, n: int)
    ensures forall i :: 0 <= i < |PlaytimeTop(rows, n)| ==> Complete(PlaytimeTop(rows, n)[i])
    ensures |PlaytimeTop(rows, n)| <= if n <= 0 then 0 else n
    ensures Descending(PlaytimeTop(rows, n))
    ensures multiset(PlaytimeTop(rows, n)) <= multiset(rows)
    ensures forall x, y ::
      (Complete(x) && x in multiset(rows) - multiset(PlaytimeTop(rows, n)) && y in PlaytimeTop(rows, n))
      ==> RanksAtLeast(y, x)
  {
    var kept := DropIncomplete(rows);
    var top := NLargest(kept, n);
    assert multiset(kept) <= multiset(rows);
    forall i | 0 <= i < |top| ensures Complete(top[i]) {
      assert top[i] in multiset(top);
      assert multiset(kept)[top[i]] > 0;
    }
    forall x, y | Complete(x) && x in multiset(rows) - multiset(top) && y in top
      ensures RanksAtLeast(y, x)
    {
      assert multiset(rows)[x] > multiset(top)[x];
      assert x in multiset(kept) - multiset(top);
    }
  }
}
