/** A worked passenger table run through the whole pipeline: clean, filter,
    summarise. */
module Scenario {
  import opened Text
  import opened Tables
  import opened Cleaning
  import opened Filtering
  import opened Metrics


  /** A table of two columns called `a` and `b`. */
  function Two(n: nat, a: string, x: seq<Value>, b: string, y: seq<Value>): Table {
    Table(n, [Column(a, x), Column(b, y)])
  }

  lemma TwoLookup(n: nat, a: string, x: seq<Value>, b: string, y: seq<Value>)
    requires a != b
    ensures var t := Two(n, a, x, b, y);
      && Names(t.cols) == [a, b]
      && (forall c :: Has(t, c) <==> c == a || c == b)
      && Series(t, a) == x && Series(t, b) == y
  {
    assert Names(Two(n, a, x, b, y).cols) == [a, b];
  }

  lemma TwoSet(n: nat, a: string, x: seq<Value>, b: string, y: seq<Value>, v: seq<Value>)
    requires a != b
    ensures Names(Two(n, a, x, b, y).cols) == [a, b]
    ensures SetSeries(Two(n, a, x, b, y), a, v) == Two(n, a, v, b, y)
    ensures SetSeries(Two(n, a, x, b, y), b, v) == Two(n, a, x, b, v)
  {
    TwoLookup(n, a, x, b, y);
  }

  /** Headers that are already normal are left as they are. */
  lemma TwoHeaders(n: nat, a: string, x: seq<Value>, b: string, y: seq<Value>)
    requires a != b && NormalizeHeader(a) == a && NormalizeHeader(b) == b
    ensures NormalizeHeaders(Two(n, a, x, b, y)) == Two(n, a, x, b, y)
  {
    TwoLookup(n, a, x, b, y);
  }

  lemma {:induction false} KeepAll(cols: seq<Column>, labels: seq<string>)
    requires forall i :: 0 <= i < |cols| ==> cols[i].name !in labels
    ensures KeepColumns(cols, labels) == cols
  {
    if cols != [] {
      KeepAll(cols[1..], labels);
    }
  }

  /** None of the columns is dropped when none is `Cabin`, `Ticket` or `Name`. */
  lemma TwoDrop(n: nat, a: string, x: seq<Value>, b: string, y: seq<Value>)
    requires a != b && a !in DropLabels && b !in DropLabels
    ensures DropUnused(Two(n, a, x, b, y)) == Two(n, a, x, b, y)
  {
    var t := Two(n, a, x, b, y);
    TwoLookup(n, a, x, b, y);
    KeepAll(t.cols, Present(DropLabels, [a, b]));
  }

  /** The steps after the headers, on a table of `Sex` and `Survived` alone. */
  lemma SexSurvivedSteps(n: nat, x: seq<Value>, y: seq<Value>)
    ensures var t := Two(n, "Sex", x, "Survived", y);
      && ImputeAge(t) == Ok(t) && ImputeEmbarked(t) == Ok(t)
      && DropUnused(t) == t
      && LabelSurvived(CapitalizeSex(t))
           == Two(n, "Sex", MapCells(x, CapitalizeCell), "Survived", MapCells(y, SurvivedLabel))
  {
    TwoLookup(n, "Sex", x, "Survived", y);
    TwoDrop(n, "Sex", x, "Survived", y);
    var x' := MapCells(x, CapitalizeCell);
    TwoSet(n, "Sex", x, "Survived", y, x');
    TwoLookup(n, "Sex", x', "Survived", y);
    TwoSet(n, "Sex", x', "Survived", y, MapCells(y, SurvivedLabel));
  }

  /** `Clean` on a table of `Sex` and `Survived` alone. */
  lemma SexSurvivedClean(n: nat, x: seq<Value>, y: seq<Value>)
    ensures Clean(Two(n, "Sex", x, "Survived", y))
         == Ok(Two(n, "Sex", MapCells(x, CapitalizeCell), "Survived", MapCells(y, SurvivedLabel)))
  {
    PlainHeader("Sex");
    PlainHeader("Survived");
    TwoHeaders(n, "Sex", x, "Survived", y);
    SexSurvivedSteps(n, x, y);
  }

  function RawTwo(): Table {
    Two(2, "Sex", [Str("male"), Str("female")], "Survived", [Num(0.0), Num(1.0)])
  }

  function CleanTwo(): Table {
    Two(2, "Sex", [Str("Male"), Str("Female")], "Survived", [Str("No"), Str("Yes")])
  }

  lemma CapitalizeRawTwo()
    ensures MapCells([Str("male"), Str("female")], CapitalizeCell) == [Str("Male"), Str("Female")]
  {
    LowerWord("male");
    LowerWord("female");
    assert Upper('m') == 'M' && Upper('f') == 'F';
    assert ['M'] + "male"[1..] == "Male";
    assert ['F'] + "female"[1..] == "Female";
  }

  lemma CapitalizeCleanTwo()
    ensures MapCells([Str("Male"), Str("Female")], CapitalizeCell) == [Str("Male"), Str("Female")]
  {
    CapitalizedWord("Male");
    CapitalizedWord("Female");
  }

  lemma LabelTwo()
    ensures MapCells([Num(0.0), Num(1.0)], SurvivedLabel) == [Str("No"), Str("Yes")]
    ensures MapCells([Str("No"), Str("Yes")], SurvivedLabel) == [Missing, Missing]
  {
  }

  lemma CleanedTwo()
    ensures Clean(RawTwo()) == Ok(CleanTwo())
  {
    SexSurvivedClean(2, [Str("male"), Str("female")], [Num(0.0), Num(1.0)]);
    CapitalizeRawTwo();
    LabelTwo();
  }

  lemma SummaryTwo()
    ensures Summarize(CleanTwo(), CleanTwo()) == Summary(2, Count(1), Count(1))
  {
    var s := [Str("No"), Str("Yes")];
    TwoLookup(2, "Sex", [Str("Male"), Str("Female")], "Survived", s);
    assert Occ(s, Str("Yes")) == 1 by { assert s[1..] == [Str("Yes")]; }
    assert Occ(s, Str("No")) == 1 by { assert s[1..] == [Str("Yes")]; }
  }

  lemma FemaleOnlyTwo()
    ensures SelectRows(CleanTwo(), Keep(CleanTwo(), [Str("Female")], Options(CleanTwo(), "Pclass"))).nrows == 1
  {
    var df := CleanTwo();
    TwoLookup(2, "Sex", [Str("Male"), Str("Female")], "Survived", [Str("No"), Str("Yes")]);
    var keep := Keep(df, [Str("Female")], Options(df, "Pclass"));
    assert keep == [false, true];
    assert CountTrue(keep) == 1 by {
      assert keep[1..] == [true];
      assert CountTrue([true]) == 1 by { assert [true][1..] == []; }
    }
  }

  /** One male non-survivor and one female survivor: once cleaned, with
      every option selected, the dashboard shows two passengers, one
      survivor and one non-survivor. */
  lemma TwoPassengers()
    ensures Clean(RawTwo()).Ok?
    ensures var df := Clean(RawTwo()).value;
      && Valid(df)
      && Summarize(df, SelectRows(df, Keep(df, Options(df, "Sex"), Options(df, "Pclass"))))
         == Summary(2, Count(1), Count(1))
  {
    CleanedTwo();
    DefaultSelectionKeepsAll(CleanTwo());
    SummaryTwo();
  }

  /** Cleaning the cleaned two-passenger table again succeeds but changes
      it: its `Survived` labels both become missing. */
  lemma TwoPassengersCleanedTwice()
    ensures Clean(CleanTwo()) == Ok(Two(2, "Sex", [Str("Male"), Str("Female")], "Survived", [Missing, Missing]))
  {
    SexSurvivedClean(2, [Str("Male"), Str("Female")], [Str("No"), Str("Yes")]);
    CapitalizeCleanTwo();
    LabelTwo();
  }
}
