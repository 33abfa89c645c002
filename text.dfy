/** Plain string helpers the query builders rely on: Python's `str.join`,
    substring tests, decimal rendering of naturals and splitting on commas. */
module Text {

  datatype Option<+T> = None | Some(value: T)

  /** Python's `sep.join(parts)`: the parts in order, with `sep` between
      consecutive parts and nowhere else. */
  function Join(sep: string, parts: seq<string>): string
  {
    if |parts| == 0 then ""
    else if |parts| == 1 then parts[0]
    else parts[0] + sep + Join(sep, parts[1..])
  }

  /** Joining non-empty parts gives the empty string exactly when there are no parts. */
  lemma JoinEmptyIff(sep: string, parts: seq<string>)
    requires forall i :: 0 <= i < |parts| ==> parts[i] != ""
    ensures Join(sep, parts) == "" <==> parts == []
  {
    if |parts| >= 1 {
      var j := Join(sep, parts);
      assert j[..|parts[0]|] == parts[0];
    }
  }

  /** Joining a single part followed by more parts puts one separator between them. */
  lemma JoinCons(sep: string, p: string, ps: seq<string>)
    requires ps != []
    ensures Join(sep, [p] + ps) == p + sep + Join(sep, ps)
  {
    assert ([p] + ps)[1..] == ps;
  }

  lemma ConcatAssoc(a: string, b: string, c: string)
    ensures (a + b) + c == a + (b + c)
  {
  }

  /** The text after `prefix` in `prefix + rest` is `rest`. */
  lemma SuffixAfter(prefix: string, rest: string)
    ensures (prefix + rest)[|prefix|..] == rest
  {
  }

  predicate IsPrefix(c: string, s: string)
  {
    |c| <= |s| && s[..|c|] == c
  }

  /** `c` occurs somewhere in `s` as a contiguous piece. */
  predicate ContainsText(s: string, c: string)
    decreases |s|
  {
    IsPrefix(c, s) || (s != [] && ContainsText(s[1..], c))
  }

  /** `c` occurs in `s` starting at position `i`. */
  predicate OccursAt(s: string, c: string, i: int)
  {
    0 <= i <= |s| - |c| && s[i..i + |c|] == c
  }

  /** ContainsText holds exactly when `c` occurs at some position of `s`. */
  lemma {:induction false} ContainsTextAt(s: string, c: string)
    ensures ContainsText(s, c) <==> exists i :: OccursAt(s, c, i)
    decreases |s|
  {
    if s == [] {
      if exists i :: OccursAt(s, c, i) {
        var i :| OccursAt(s, c, i);
        assert |c| == 0 && c == s[i..i + |c|] == [];
      }
      if ContainsText(s, c) {
        assert OccursAt(s, c, 0);
      }
    } else {
      ContainsTextAt(s[1..], c);
      if ContainsText(s, c) {
        if IsPrefix(c, s) {
          assert OccursAt(s, c, 0);
        } else {
          var i :| OccursAt(s[1..], c, i);
          assert s[1..][i..i + |c|] == s[i + 1..i + 1 + |c|];
          assert OccursAt(s, c, i + 1);
        }
      }
      if exists i :: OccursAt(s, c, i) {
        var i :| OccursAt(s, c, i);
        if i > 0 {
          assert s[1..][i - 1..i - 1 + |c|] == s[i..i + |c|];
          assert OccursAt(s[1..], c, i - 1);
        }
      }
    }
  }

  function DigitChar(d: nat): char
    requires d < 10
  {
    "0123456789"[d]
  }

  /** Decimal text of a natural number, as Python's `str` and MySQL print it. */
  function NatText(n: nat): (s: string)
    ensures s != ""
    ensures forall i :: 0 <= i < |s| ==> '0' <= s[i] <= '9'
  {
    if n < 10 then [DigitChar(n)] else NatText(n / 10) + [DigitChar(n % 10)]
  }

  /** The pieces of `s` between commas, as MySQL reads a SET-style list. */
  function SplitComma(s: string): (parts: seq<string>)
    ensures |parts| >= 1
    decreases |s|
  {
    if s == [] then [""]
    else
      var rest := SplitComma(s[1..]);
      if s[0] == ',' then [""] + rest else [[s[0]] + rest[0]] + rest[1..]
  }

  /** No piece of a comma split contains a comma. */
  lemma {:induction false} SplitCommaPiecesHaveNoComma(s: string)
    ensures forall i :: 0 <= i < |SplitComma(s)| ==> ',' !in SplitComma(s)[i]
    decreases |s|
  {
    if s != [] {
      SplitCommaPiecesHaveNoComma(s[1..]);
    }
  }

  /** Splitting on commas and joining back with commas gives the original text. */
  lemma {:induction false} SplitCommaJoinRoundTrip(s: string)
    ensures Join(",", SplitComma(s)) == s
    decreases |s|
  {
    if s != [] {
      var rest := SplitComma(s[1..]);
      SplitCommaJoinRoundTrip(s[1..]);
      if s[0] == ',' {
        JoinCons(",", "", rest);
      } else if |rest| == 1 {
      } else {
        JoinCons(",", rest[0], rest[1..]);
        assert rest == [rest[0]] + rest[1..];
        JoinCons(",", [s[0]] + rest[0], rest[1..]);
        assert [[s[0]] + rest[0]] + rest[1..] == SplitComma(s);
      }
    }
  }

  /** Text without a comma is a one-piece list. */
  lemma {:induction false} SplitCommaNoComma(s: string)
    requires ',' !in s
    ensures SplitComma(s) == [s]
    decreases |s|
  {
    if s != [] {
      assert ',' !in s[1..] by {
        forall k | 0 <= k < |s[1..]| ensures s[1..][k] != ',' {
          assert s[1..][k] == s[k + 1];
        }
      }
      SplitCommaNoComma(s[1..]);
      assert [s[0]] + s[1..] == s;
    }
  }
}
