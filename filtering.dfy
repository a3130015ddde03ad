/** The sidebar filter block (main.py:55-65): the options offered for `Sex`
    and `Pclass`, and the rows kept for the user's selections. */
module Filtering {
  import opened Tables

  /** `Series.unique().tolist()`: each distinct value of the column, once. */
  function Unique(s: seq<Value>): (u: seq<Value>)
    ensures forall v :: v in u <==> v in s
    ensures forall i, j :: 0 <= i < j < |u| ==> u[i] != u[j]
  {
    if s == [] then []
    else
      var u := Unique(s[..|s| - 1]);
      assert forall v :: v in s <==> v in s[..|s| - 1] || v == s[|s| - 1] by {
        assert s == s[..|s| - 1] + [s[|s| - 1]];
      }
      if s[|s| - 1] in u then u else u + [s[|s| - 1]]
  }

  /** The options of a multiselect, all of them preselected: the distinct
      values of the column, or none when the column is absent. */
  function Options(df: Table, name: string): seq<Value> {
    if Has(df, name) then Unique(Series(df, name)) else []
  }

  /** `Series.isin(selected)`. NaN is found among the selected values when
      NaN is one of them, as pandas matches it. */
  function Member(s: seq<Value>, selected: seq<Value>): seq<bool> {
    seq(|s|, k requires 0 <= k < |s| => s[k] in selected)
  }

  /** The filter block's row test: a row stays when its `Sex` is selected (if
      the table has `Sex`) and its `Pclass` is selected (if it has `Pclass`). */
  function Keep(df: Table, selectedGender: seq<Value>, selectedPclass: seq<Value>): seq<bool>
    requires Valid(df)
  {
    seq(df.nrows, k requires 0 <= k < df.nrows =>
      (Has(df, "Sex") ==> Series(df, "Sex")[k] in selectedGender) &&
      (Has(df, "Pclass") ==> Series(df, "Pclass")[k] in selectedPclass))
  }

  lemma {:induction false} MemberPick(s: seq<Value>, selected: seq<Value>, a: seq<bool>)
    requires |s| == |a|
    ensures Member(Pick(s, a), selected) == Pick(Member(s, selected), a)
  {
    if s != [] {
      MemberPick(s[1..], selected, a[1..]);
      assert Member(s, selected)[1..] == Member(s[1..], selected);
      var x := Pick(s[1..], a[1..]);
      if a[0] {
        assert Pick(s, a) == [s[0]] + x;
        assert Member([s[0]] + x, selected) == [s[0] in selected] + Member(x, selected);
      } else {
        assert Pick(s, a) == x;
      }
    }
  }

  /** The filter block: `filtered_df` starts as a copy of `df` and is
      narrowed once for each of `Sex` and `Pclass` the table has. The result
      is the selection of the rows `Keep` accepts. */
  method FilterBlock(df: Table, selectedGender: seq<Value>, selectedPclass: seq<Value>)
    returns (filtered: Table)
    requires Valid(df)
    ensures Valid(filtered) && Names(filtered.cols) == Names(df.cols)
    ensures filtered == SelectRows(df, Keep(df, selectedGender, selectedPclass))
  {
    ghost var keep := Keep(df, selectedGender, selectedPclass);
    filtered := df;
    if "Sex" in Names(df.cols) {
      filtered := SelectRows(filtered, Member(Series(filtered, "Sex"), selectedGender));
    }
    if "Pclass" in Names(df.cols) {
      filtered := SelectRows(filtered, Member(Series(filtered, "Pclass"), selectedPclass));
    }
    ghost var hasSex, hasPclass := Has(df, "Sex"), Has(df, "Pclass");
    if hasSex && hasPclass {
      ghost var a := Member(Series(df, "Sex"), selectedGender);
      ghost var b := Member(Series(df, "Pclass"), selectedPclass);
      MemberPick(Series(df, "Pclass"), selectedPclass, a);
      SelectTwice(df, a, b);
      assert keep == And(a, b);
    } else if hasSex {
      assert keep == Member(Series(df, "Sex"), selectedGender);
    } else if hasPclass {
      assert keep == Member(Series(df, "Pclass"), selectedPclass);
    } else {
      assert keep == AllTrue(df.nrows);
      SelectAll(df);
    }
  }

  /** The filtered rows are the table's rows that pass both tests, in their
      original order: row `j` of the result is the table's row at the `j`-th
      passing position, every kept row passes both membership tests, and every
      passing row is kept. */
  lemma FilterKeepsExactly(df: Table, selectedGender: seq<Value>, selectedPclass: seq<Value>)
    requires Valid(df)
    ensures var keep := Keep(df, selectedGender, selectedPclass);
      var f := SelectRows(df, keep);
      var p := Positions(keep);
      && f.nrows == |p| <= df.nrows
      && (forall j, j' :: 0 <= j < j' < |p| ==> p[j] < p[j'])
      && (forall j :: 0 <= j < f.nrows ==> p[j] < df.nrows && Row(f, j) == Row(df, p[j]))
      && (forall j :: 0 <= j < f.nrows && Has(f, "Sex") ==> Series(f, "Sex")[j] in selectedGender)
      && (forall j :: 0 <= j < f.nrows && Has(f, "Pclass") ==> Series(f, "Pclass")[j] in selectedPclass)
      && (forall k :: 0 <= k < df.nrows ==>
            (k in p <==> (Has(df, "Sex") ==> Series(df, "Sex")[k] in selectedGender) &&
                         (Has(df, "Pclass") ==> Series(df, "Pclass")[k] in selectedPclass)))
  {
    var keep := Keep(df, selectedGender, selectedPclass);
    var f := SelectRows(df, keep);
    var p := Positions(keep);
    SelectRowsSubsequence(df, keep);
    PositionsIncreasing(keep);
    PositionsSelected(keep);
    forall j | 0 <= j < f.nrows
      ensures Has(f, "Sex") ==> Series(f, "Sex")[j] in selectedGender
      ensures Has(f, "Pclass") ==> Series(f, "Pclass")[j] in selectedPclass
    {
      if Has(f, "Sex") {
        PickAt(Series(df, "Sex"), keep);
        assert keep[p[j]];
      }
      if Has(f, "Pclass") {
        PickAt(Series(df, "Pclass"), keep);
        assert keep[p[j]];
      }
    }
  }

  /** With the preselected options (every distinct value), no row is lost. */
  lemma DefaultSelectionKeepsAll(df: Table)
    requires Valid(df)
    ensures SelectRows(df, Keep(df, Options(df, "Sex"), Options(df, "Pclass"))) == df
  {
    assert Keep(df, Options(df, "Sex"), Options(df, "Pclass")) == AllTrue(df.nrows);
    SelectAll(df);
  }

  /** Deselecting every option of a column the table has leaves no row. */
  lemma EmptySelectionKeepsNone(df: Table, selectedGender: seq<Value>, selectedPclass: seq<Value>)
    requires Valid(df)
    requires (Has(df, "Sex") && selectedGender == []) || (Has(df, "Pclass") && selectedPclass == [])
    ensures SelectRows(df, Keep(df, selectedGender, selectedPclass)).nrows == 0
  {
    CountTrueNone(Keep(df, selectedGender, selectedPclass));
  }
}
