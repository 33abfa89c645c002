/** The age-bracket fragment: which `Required Age` ranges a selection of UI
    labels turns into, in which order, and what the fragment then accepts.
    Both source files build it with the same code; their builders are proved
    equal to AgeFragment below. */
module AgeFilter {
  import opened Text
  import opened Sql

  /** The three brackets the dashboard offers, in the order the builder tests them. */
  datatype Bucket = Children | Teens | YoungAdults {

    /** The label the UI shows and the builder looks for. */
    function Label(): string
    {
      match this
      case Children => "0-7 (Children)"
      case Teens => "8-15 (Teens)"
      case YoungAdults => "16-21 (Young Adults)"
    }

    function Lo(): nat
    {
      match this
      case Children => 0
      case Teens => 8
      case YoungAdults => 16
    }

    function Hi(): nat
    {
      match this
      case Children => 7
      case Teens => 15
      case YoungAdults => 21
    }

    /** The clause the builder appends for this bracket, as written in the source. */
    function ClauseText(): string
    {
      match this
      case Children => "`Required Age` BETWEEN 0 AND 7"
      case Teens => "`Required Age` BETWEEN 8 AND 15"
      case YoungAdults => "`Required Age` BETWEEN 16 AND 21"
    }

    /** Position in the fixed test order. */
    function Rank(): nat
    {
      match this
      case Children => 0
      case Teens => 1
      case YoungAdults => 2
    }
  }

  const AgeColumn: string := "`Required Age`"

  /** All brackets, in test order. */
  const Buckets: seq<Bucket> := [Children, Teens, YoungAdults]

  /** The brackets of `bs`, kept in order, whose label the selection contains. */
  function Chosen(bs: seq<Bucket>, ageFilter: seq<string>): seq<Bucket>
  {
    if bs == [] then []
    else (if bs[0].Label() in ageFilter then [bs[0]] else []) + Chosen(bs[1..], ageFilter)
  }

  function SelectedBuckets(ageFilter: seq<string>): seq<Bucket>
  {
    Chosen(Buckets, ageFilter)
  }

  function ClauseTexts(bs: seq<Bucket>): (texts: seq<string>)
    ensures |texts| == |bs|
    ensures forall i :: 0 <= i < |bs| ==> texts[i] == bs[i].ClauseText()
  {
    if bs == [] then [] else [bs[0].ClauseText()] + ClauseTexts(bs[1..])
  }

  /** The fragment both builders return: the clause of every selected bracket,
      in test order, joined by " OR ". */
  function AgeFragment(ageFilter: seq<string>): string
  {
    Join(" OR ", ClauseTexts(SelectedBuckets(ageFilter)))
  }

  /** The bracket as a condition: `Required Age` between its bounds. */
  function BucketPred(b: Bucket): Pred
  {
    Between(AgeColumn, b.Lo(), b.Hi())
  }

  function BucketPreds(bs: seq<Bucket>): (ps: seq<Pred>)
    ensures |ps| == |bs|
    ensures forall i :: 0 <= i < |bs| ==> ps[i] == BucketPred(bs[i])
  {
    if bs == [] then [] else [BucketPred(bs[0])] + BucketPreds(bs[1..])
  }

  /** The age condition the fragment stands for, appended only when some
      bracket is selected. */
  function AgeConjuncts(ageFilter: seq<string>): seq<Clause>
  {
    if SelectedBuckets(ageFilter) == [] then [] else [AnyOf(BucketPreds(SelectedBuckets(ageFilter)))]
  }

  /** The age test the fragment applies: no restriction without a known label,
      otherwise membership of some selected bracket. */
  predicate AgeAllowed(ageFilter: seq<string>, age: int)
  {
    (forall b: Bucket :: b.Label() !in ageFilter)
    || exists b: Bucket :: b.Label() in ageFilter && b.Lo() <= age <= b.Hi()
  }

  // ---------------------------------------------------------------------------
  // Which brackets are selected
  // ---------------------------------------------------------------------------

  /** The bracket as a one-element list when its label is selected. */
  function Pick(b: Bucket, ageFilter: seq<string>): seq<Bucket>
  {
    if b.Label() in ageFilter then [b] else []
  }

  lemma SelectedBucketsUnfold(ageFilter: seq<string>)
    ensures SelectedBuckets(ageFilter)
      == Pick(Children, ageFilter) + Pick(Teens, ageFilter) + Pick(YoungAdults, ageFilter)
  {
    var rest := [Teens, YoungAdults];
    assert Buckets[1..] == rest && rest[1..] == [YoungAdults] && [YoungAdults][1..] == [];
    assert Chosen([YoungAdults], ageFilter) == Pick(YoungAdults, ageFilter);
    assert Chosen(rest, ageFilter) == Pick(Teens, ageFilter) + Pick(YoungAdults, ageFilter);
  }

  /** A bracket is selected exactly when its label is in the selection; the
      selected brackets come in the fixed order children, teens, young adults,
      each at most once, whatever the order of the selection. */
  lemma SelectedBucketsSpec(ageFilter: seq<string>)
    ensures forall b :: b in SelectedBuckets(ageFilter) <==> b.Label() in ageFilter
    ensures forall i, j :: 0 <= i < j < |SelectedBuckets(ageFilter)| ==>
      SelectedBuckets(ageFilter)[i].Rank() < SelectedBuckets(ageFilter)[j].Rank()
  {
    SelectedBucketsUnfold(ageFilter);
    var bs := SelectedBuckets(ageFilter);
    forall i, j | 0 <= i < j < |bs| ensures bs[i].Rank() < bs[j].Rank() {
      assert bs[i] != YoungAdults && bs[j] != Children;
      if bs[i] == Teens {
        assert bs[j] == YoungAdults;
      }
    }
  }

  /** The selection is unambiguous: any two selections with the same known
      labels give the same fragment, so order and unknown labels do not matter. */
  lemma AgeFragmentDependsOnKnownLabelsOnly(s1: seq<string>, s2: seq<string>)
    requires forall b: Bucket :: b.Label() in s1 <==> b.Label() in s2
    ensures AgeFragment(s1) == AgeFragment(s2)
  {
    SelectedBucketsUnfold(s1);
    SelectedBucketsUnfold(s2);
  }

  /** No known label gives the empty fragment, meaning no age restriction; any
      known label gives a non-empty one. */
  lemma AgeFragmentEmptyIff(ageFilter: seq<string>)
    ensures AgeFragment(ageFilter) == "" <==> forall b: Bucket :: b.Label() !in ageFilter
  {
    SelectedBucketsSpec(ageFilter);
    var bs := SelectedBuckets(ageFilter);
    var texts := ClauseTexts(bs);
    JoinEmptyIff(" OR ", texts);
    if bs != [] {
      assert bs[0] in bs;
    }
    if exists b: Bucket :: b.Label() in ageFilter {
      var b: Bucket :| b.Label() in ageFilter;
      assert b in bs;
    }
  }

  // ---------------------------------------------------------------------------
  // Text and meaning of the clauses
  // ---------------------------------------------------------------------------

  lemma BoundTexts()
    ensures NatText(0) == "0" && NatText(7) == "7" && NatText(8) == "8"
    ensures NatText(15) == "15" && NatText(16) == "16" && NatText(21) == "21"
  {
    assert NatText(15) == NatText(1) + [DigitChar(5)];
    assert NatText(16) == NatText(1) + [DigitChar(6)];
    assert NatText(21) == NatText(2) + [DigitChar(1)];
  }

  /** Each bracket's clause text is the `BETWEEN lo AND hi` test on the age
      column, with bounds 0-7, 8-15 and 16-21. */
  lemma ClauseTextIsBetween(b: Bucket)
    ensures b.ClauseText() == RenderPred(BucketPred(b))
    ensures (b.Lo(), b.Hi()) in {(0, 7), (8, 15), (16, 21)}
  {
    BoundTexts();
    match b
    case Children =>
      assert RenderPred(BucketPred(b)) == AgeColumn + " BETWEEN " + "0" + " AND " + "7";
    case Teens =>
      assert RenderPred(BucketPred(b)) == AgeColumn + " BETWEEN " + "8" + " AND " + "15";
    case YoungAdults =>
      assert RenderPred(BucketPred(b)) == AgeColumn + " BETWEEN " + "16" + " AND " + "21";
  }

  lemma {:induction false} ClauseTextsRender(bs: seq<Bucket>)
    ensures ClauseTexts(bs) == RenderEach(BucketPreds(bs))
  {
    forall i | 0 <= i < |bs| ensures ClauseTexts(bs)[i] == RenderEach(BucketPreds(bs))[i] {
      ClauseTextIsBetween(bs[i]);
    }
  }

  /** The fragment is the rendering of the OR of the selected brackets' tests. */
  lemma AgeFragmentRenders(ageFilter: seq<string>)
    ensures AgeFragment(ageFilter) == Render(AnyOf(BucketPreds(SelectedBuckets(ageFilter))))
  {
    ClauseTextsRender(SelectedBuckets(ageFilter));
  }

  /** The appended age condition lets a row through exactly when its age lies
      in a selected bracket, bounds included; with no bracket selected nothing
      is appended and every age passes. */
  lemma AgeConjunctsMeaning(ageFilter: seq<string>, g: Game)
    ensures (forall i :: 0 <= i < |AgeConjuncts(ageFilter)| ==> Holds(AgeConjuncts(ageFilter)[i], g))
      <==> AgeAllowed(ageFilter, g.requiredAge)
    ensures forall i :: 0 <= i < |AgeConjuncts(ageFilter)| ==> WellFormed(AgeConjuncts(ageFilter)[i])
  {
    SelectedBucketsSpec(ageFilter);
    var bs := SelectedBuckets(ageFilter);
    var ps := BucketPreds(bs);
    var cs := AgeConjuncts(ageFilter);
    if bs != [] {
      assert cs == [AnyOf(ps)];
      assert WellFormed(AnyOf(ps));
      assert Holds(AnyOf(ps), g) ==> AgeAllowed(ageFilter, g.requiredAge) by {
        if Holds(AnyOf(ps), g) {
          var i :| 0 <= i < |ps| && HoldsPred(ps[i], g);
          assert bs[i] in bs;
          assert bs[i].Label() in ageFilter && bs[i].Lo() <= g.requiredAge <= bs[i].Hi();
        }
      }
      assert AgeAllowed(ageFilter, g.requiredAge) ==> Holds(AnyOf(ps), g) by {
        if AgeAllowed(ageFilter, g.requiredAge) {
          assert bs[0] in bs;
          assert !(forall b: Bucket :: b.Label() !in ageFilter);
          var b: Bucket :| b.Label() in ageFilter && b.Lo() <= g.requiredAge <= b.Hi();
          assert b in bs;
          var i :| 0 <= i < |bs| && bs[i] == b;
          assert HoldsPred(ps[i], g);
        }
      }
      assert (forall i :: 0 <= i < |cs| ==> Holds(cs[i], g)) <==> Holds(AnyOf(ps), g) by {
        assert cs[0] == AnyOf(ps);
      }
    } else {
      assert cs == [];
      forall b: Bucket ensures b.Label() !in ageFilter {
        assert b !in bs;
      }
    }
  }

  /** With only the teens bracket selected, of the ages 5, 10 and 20 only 10 passes. */
  lemma TeensScenario()
    ensures !AgeAllowed(["8-15 (Teens)"], 5)
    ensures AgeAllowed(["8-15 (Teens)"], 10)
    ensures !AgeAllowed(["8-15 (Teens)"], 20)
  {
    assert Teens.Label() in ["8-15 (Teens)"];
    assert Children.Label() != "8-15 (Teens)";
    assert YoungAdults.Label() != "8-15 (Teens)";
  }
}
