/** The three dashboard metrics (main.py:72-78): passengers in the filtered
    view, and how many of them survived and did not, or "N/A" when the
    cleaned table has no `Survived` column. */
module Metrics {
  import opened Tables
  import Cleaning
  import Filtering

  datatype Metric = Count(n: nat) | NotAvailable

  datatype Summary = Summary(total: nat, survived: Metric, notSurvived: Metric)

  /** The metrics for `filtered`, a row selection of the cleaned table `df`;
      whether `Survived` exists is asked of `df`, the counts of `filtered`. */
  function Summarize(df: Table, filtered: Table): Summary
    requires Names(filtered.cols) == Names(df.cols)
  {
    if Has(df, "Survived") then
      var s := Series(filtered, "Survived");
      Summary(filtered.nrows, Count(Occ(s, Str("Yes"))), Count(Occ(s, Str("No"))))
    else
      Summary(filtered.nrows, NotAvailable, NotAvailable)
  }

  /** Cells equal to `a` and cells equal to `b` together number at most all
      cells, and exactly all of them when every cell is one of the two. */
  lemma {:induction false} OccTwo(s: seq<Value>, a: Value, b: Value)
    requires a != b
    ensures Occ(s, a) + Occ(s, b) <= |s|
    ensures Occ(s, a) + Occ(s, b) == |s| <==> forall k :: 0 <= k < |s| ==> s[k] == a || s[k] == b
  {
    if s != [] {
      OccTwo(s[1..], a, b);
      if forall k :: 0 <= k < |s[1..]| ==> s[1..][k] == a || s[1..][k] == b {
        if s[0] == a || s[0] == b {
          assert forall k :: 0 <= k < |s| ==> s[k] == a || s[k] == b by {
            forall k | 0 <= k < |s| ensures s[k] == a || s[k] == b {
              if k > 0 { assert s[k] == s[1..][k - 1]; }
            }
          }
        }
      } else {
        var k :| 0 <= k < |s[1..]| && !(s[1..][k] == a || s[1..][k] == b);
        assert s[k + 1] == s[1..][k];
      }
    }
  }

  /** The total is the number of filtered rows; both counts are "N/A"
      exactly when `Survived` is absent; otherwise survivors and
      non-survivors together number at most the total, and exactly the
      total when every filtered `Survived` cell is `Yes` or `No`. */
  lemma SummaryCounts(df: Table, filtered: Table)
    requires Valid(filtered) && Names(filtered.cols) == Names(df.cols)
    ensures var m := Summarize(df, filtered);
      && m.total == filtered.nrows
      && (m.survived == NotAvailable <==> !Has(df, "Survived"))
      && (m.notSurvived == NotAvailable <==> !Has(df, "Survived"))
      && (Has(df, "Survived") ==>
            var s := Series(filtered, "Survived");
            && m.survived.n + m.notSurvived.n <= m.total
            && (m.survived.n + m.notSurvived.n == m.total <==>
                  forall k :: 0 <= k < |s| ==> s[k] == Str("Yes") || s[k] == Str("No")))
  {
    if Has(df, "Survived") {
      OccTwo(Series(filtered, "Survived"), Str("Yes"), Str("No"));
    }
  }

  predicate Labelled(s: seq<Value>) {
    forall k :: 0 <= k < |s| ==> s[k] == Str("Yes") || s[k] == Str("No") || s[k] == Missing
  }

  /** After cleaning, every `Survived` cell is `Yes`, `No` or missing. */
  lemma CleanedSurvivedLabelled(raw: Table)
    requires Valid(raw) && Cleaning.Clean(raw).Ok?
    requires Has(Cleaning.Clean(raw).value, "Survived")
    ensures Labelled(Series(Cleaning.Clean(raw).value, "Survived"))
  {
    Cleaning.CleanByColumn(raw);
    Cleaning.SurvivedRule(Series(Cleaning.NormalizeHeaders(raw), "Survived"));
  }

  /** A row selection keeps a labelled column labelled. */
  lemma PickLabelled(s: seq<Value>, keep: seq<bool>)
    requires |s| == |keep| && Labelled(s)
    ensures Labelled(Pick(s, keep))
  {
    PickAt(s, keep);
    PositionsSelected(keep);
  }

  /** When every `Survived` cell of the filtered view is a label or missing,
      the two counts add up to the total exactly when none is missing. */
  lemma LabelledCounts(df: Table, f: Table)
    requires Valid(f) && Names(f.cols) == Names(df.cols)
    requires Has(df, "Survived") && Labelled(Series(f, "Survived"))
    ensures var m := Summarize(df, f);
      m.survived.n + m.notSurvived.n == m.total <==>
        forall j :: 0 <= j < f.nrows ==> Series(f, "Survived")[j] != Missing
  {
    SummaryCounts(df, f);
  }

  /** On the dashboard's own pipeline (clean, then filter), a passenger is
      counted in neither metric only when their `Survived` cell is missing:
      the two counts add up to the total exactly when no filtered `Survived`
      cell is missing. */
  lemma PipelineCounts(raw: Table, selectedGender: seq<Value>, selectedPclass: seq<Value>)
    requires Valid(raw) && Cleaning.Clean(raw).Ok?
    ensures var df := Cleaning.Clean(raw).value;
      Valid(df) &&
      var f := SelectRows(df, Filtering.Keep(df, selectedGender, selectedPclass));
      var m := Summarize(df, f);
      Has(df, "Survived") ==>
        (m.survived.n + m.notSurvived.n == m.total <==>
          forall j :: 0 <= j < f.nrows ==> Series(f, "Survived")[j] != Missing)
  {
    var df := Cleaning.Clean(raw).value;
    Cleaning.CleanByColumn(raw);
    var keep := Filtering.Keep(df, selectedGender, selectedPclass);
    var f := SelectRows(df, keep);
    if Has(df, "Survived") {
      CleanedSurvivedLabelled(raw);
      PickLabelled(Series(df, "Survived"), keep);
      LabelledCounts(df, f);
    }
  }
}
