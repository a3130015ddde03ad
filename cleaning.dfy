/** `clean_data` (main.py:24-37): the fixed sequence of rewrites that turns
    an uploaded passenger table into the cleaned table the dashboard shows.
    The functions below state each step on table values; `Frame` and
    `CleanData` perform the same steps by updating a copy of the table in
    place, as the source does, and are proved to compute `Clean`. */
module Cleaning {
  import opened Text
  import opened Tables
  import opened Stats

  /** The two ways `clean_data` can fail. */
  datatype CleanError =
    | AgeNotNumeric       // `median()` over an `Age` column holding text
    | EmbarkedAllMissing  // `mode()[0]` of an `Embarked` column with no value

  /** The columns `clean_data` removes. */
  const DropLabels: seq<string> := ["Cabin", "Ticket", "Name"]

  // ----- cell and column rewrites -----------------------------------------

  function MapCells(s: seq<Value>, f: Value -> Value): (r: seq<Value>)
    ensures |r| == |s| && forall k :: 0 <= k < |s| ==> r[k] == f(s[k])
  {
    seq(|s|, k requires 0 <= k < |s| => f(s[k]))
  }

  /** `fillna(v)`: every missing cell becomes `v`, the others stay. */
  function FillMissing(s: seq<Value>, v: Value): (r: seq<Value>)
    ensures |r| == |s|
    ensures forall k :: 0 <= k < |s| ==> r[k] == (if s[k] == Missing then v else s[k])
  {
    MapCells(s, x => if x == Missing then v else x)
  }

  /** `Series.str.capitalize()` on one cell: text is capitalised, anything
      else becomes missing. */
  function CapitalizeCell(v: Value): Value {
    if v.Str? then Str(Capitalize(v.s)) else Missing
  }

  /** `Series.map({0: 'No', 1: 'Yes'})` on one cell. */
  function SurvivedLabel(v: Value): Value {
    if v == Num(0.0) then Str("No") else if v == Num(1.0) then Str("Yes") else Missing
  }

  predicate HasText(s: seq<Value>) {
    exists k :: 0 <= k < |s| && s[k].Str?
  }

  /** The numbers in `s`, in order. */
  function Numbers(s: seq<Value>): (r: seq<real>)
    ensures forall x :: x in r <==> Num(x) in s
  {
    if s == [] then []
    else (if s[0].Num? then [s[0].n] else []) + Numbers(s[1..])
  }

  /** `Series.median()`: a type error over text; NaN (here `Missing`) when the
      column holds no number; otherwise the median of the numbers. */
  function SeriesMedian(s: seq<Value>): (r: Result<Value, CleanError>)
    ensures r.Err? <==> HasText(s)
    ensures r.Err? ==> r.error == AgeNotNumeric
    ensures r == Ok(Missing) <==> !HasText(s) && forall k :: 0 <= k < |s| ==> s[k] == Missing
  {
    if HasText(s) then Err(AgeNotNumeric)
    else if Numbers(s) == [] then Ok(Missing)
    else
      assert Num(Numbers(s)[0]) in s;
      Ok(Num(Median(Numbers(s))))
  }

  // ----- the steps, in the order `clean_data` applies them ----------------

  function NormalizedNames(names: seq<string>): seq<string> {
    seq(|names|, i requires 0 <= i < |names| => NormalizeHeader(names[i]))
  }

  /** `df.columns = names`: the columns are renamed position by position. */
  function Rename(t: Table, names: seq<string>): (r: Table)
    requires |names| == |t.cols|
    ensures r.nrows == t.nrows && |r.cols| == |t.cols| && Names(r.cols) == names
    ensures forall i :: 0 <= i < |t.cols| ==> r.cols[i].values == t.cols[i].values
    ensures Valid(t) ==> Valid(r)
  {
    Table(t.nrows, seq(|t.cols|, i requires 0 <= i < |t.cols| => Column(names[i], t.cols[i].values)))
  }

  /** Step 1: `df.columns = df.columns.str.strip().str.capitalize()`. */
  function NormalizeHeaders(t: Table): (r: Table)
    ensures r.nrows == t.nrows && Names(r.cols) == NormalizedNames(Names(t.cols))
    ensures forall i :: 0 <= i < |t.cols| ==> r.cols[i].values == t.cols[i].values
    ensures Valid(t) ==> Valid(r)
  {
    Rename(t, NormalizedNames(Names(t.cols)))
  }

  /** Step 2: fill the missing ages with the median age. */
  function ImputeAge(t: Table): Result<Table, CleanError> {
    if !Has(t, "Age") then Ok(t)
    else
      var ages := Series(t, "Age");
      match SeriesMedian(ages)
      case Err(e) => Err(e)
      case Ok(m) => Ok(SetSeries(t, "Age", FillMissing(ages, m)))
  }

  /** Step 3: fill the missing ports of embarkation with the most frequent one. */
  function ImputeEmbarked(t: Table): Result<Table, CleanError> {
    if !Has(t, "Embarked") then Ok(t)
    else
      var ports := Series(t, "Embarked");
      match Mode(ports)
      case None => Err(EmbarkedAllMissing)
      case Some(m) => Ok(SetSeries(t, "Embarked", FillMissing(ports, m)))
  }

  /** `[col for col in labels if col in names]`. */
  function Present(labels: seq<string>, names: seq<string>): (r: seq<string>)
    ensures forall l :: l in r <==> l in labels && l in names
  {
    if labels == [] then []
    else (if labels[0] in names then [labels[0]] else []) + Present(labels[1..], names)
  }

  /** Step 4: drop whichever of `Cabin`, `Ticket` and `Name` are present. */
  function DropUnused(t: Table): Table {
    Drop(t, Present(DropLabels, Names(t.cols)))
  }

  /** Step 5: capitalise `Sex`. */
  function CapitalizeSex(t: Table): Table {
    if Has(t, "Sex") then SetSeries(t, "Sex", MapCells(Series(t, "Sex"), CapitalizeCell)) else t
  }

  /** Step 6: recode `Survived` as `No`/`Yes`. */
  function LabelSurvived(t: Table): Table {
    if Has(t, "Survived") then SetSeries(t, "Survived", MapCells(Series(t, "Survived"), SurvivedLabel)) else t
  }

  /** `clean_data(df)`: the six steps in order; the first failure stops it. */
  function Clean(raw: Table): Result<Table, CleanError> {
    var h := NormalizeHeaders(raw);
    match ImputeAge(h)
    case Err(e) => Err(e)
    case Ok(a) =>
      match ImputeEmbarked(a)
      case Err(e) => Err(e)
      case Ok(e) => Ok(LabelSurvived(CapitalizeSex(DropUnused(e))))
  }

  // ----- what each column becomes ----------------------------------------

  /** The cleaned form of column `b`, given its values under the normalised
      header: every rule reads that one column and nothing else. */
  function ColumnRule(b: string, s: seq<Value>): seq<Value> {
    if b == "Age" then
      (match SeriesMedian(s) case Ok(m) => FillMissing(s, m) case Err(_) => s)
    else if b == "Embarked" then
      (match Mode(s) case Some(m) => FillMissing(s, m) case None => s)
    else if b == "Sex" then MapCells(s, CapitalizeCell)
    else if b == "Survived" then MapCells(s, SurvivedLabel)
    else s
  }

  lemma {:induction false} KeepNamesSameLabels(names: seq<string>, l1: seq<string>, l2: seq<string>)
    requires forall n :: n in names ==> (n in l1 <==> n in l2)
    ensures KeepNames(names, l1) == KeepNames(names, l2)
  {
    if names != [] {
      KeepNamesSameLabels(names[1..], l1, l2);
    }
  }

  /** The age step fails, with a type error, exactly when `Age` holds text;
      when it succeeds, `Embarked` is as it was. */
  lemma ImputeAgeFails(h: Table)
    ensures ImputeAge(h).Err? <==> Has(h, "Age") && HasText(Series(h, "Age"))
    ensures ImputeAge(h).Err? ==> ImputeAge(h).error == AgeNotNumeric
    ensures ImputeAge(h).Ok? ==>
      && (Has(ImputeAge(h).value, "Embarked") <==> Has(h, "Embarked"))
      && (Has(h, "Embarked") ==> Series(ImputeAge(h).value, "Embarked") == Series(h, "Embarked"))
  {
  }

  /** `clean_data` fails exactly when the `Age` column holds text, or, if it
      does not, when the `Embarked` column holds no value; the `Age` failure
      is the one reported when both apply. */
  lemma CleanFails(raw: Table)
    ensures var h := NormalizeHeaders(raw);
      var ageBad := Has(h, "Age") && HasText(Series(h, "Age"));
      var portsBad := Has(h, "Embarked") && forall k :: 0 <= k < |Series(h, "Embarked")| ==> Series(h, "Embarked")[k] == Missing;
      && (Clean(raw) == Err(AgeNotNumeric) <==> ageBad)
      && (Clean(raw) == Err(EmbarkedAllMissing) <==> !ageBad && portsBad)
      && (Clean(raw).Ok? <==> !ageBad && !portsBad)
  {
    ImputeAgeFails(NormalizeHeaders(raw));
  }

  /** A step that rewrites column `b0` by its rule and leaves the rest. */
  ghost predicate RewritesOne(t: Table, r: Table, b0: string) {
    && r.nrows == t.nrows
    && Names(r.cols) == Names(t.cols)
    && (Valid(t) ==> Valid(r))
    && (forall b :: Has(t, b) && b != b0 ==> Series(r, b) == Series(t, b))
    && (Has(t, b0) ==> Series(r, b0) == ColumnRule(b0, Series(t, b0)))
  }

  /** Assigning a column its rule's image is a step that rewrites that
      column alone. */
  lemma SetByRule(t: Table, b0: string, v: seq<Value>)
    requires Has(t, b0) && v == ColumnRule(b0, Series(t, b0))
    requires Valid(t) ==> |v| == t.nrows
    ensures RewritesOne(t, SetSeries(t, b0, v), b0)
  {
  }

  lemma ImputeAgeStep(t: Table)
    requires ImputeAge(t).Ok?
    ensures RewritesOne(t, ImputeAge(t).value, "Age")
  {
    if Has(t, "Age") {
      var ages := Series(t, "Age");
      var filled := FillMissing(ages, SeriesMedian(ages).value);
      assert ImputeAge(t).value == SetSeries(t, "Age", filled);
      assert ColumnRule("Age", ages) == filled;
      SetByRule(t, "Age", filled);
    }
  }

  lemma ImputeEmbarkedStep(t: Table)
    requires ImputeEmbarked(t).Ok?
    ensures RewritesOne(t, ImputeEmbarked(t).value, "Embarked")
  {
    if Has(t, "Embarked") {
      var ports := Series(t, "Embarked");
      var filled := FillMissing(ports, Mode(ports).value);
      assert ImputeEmbarked(t).value == SetSeries(t, "Embarked", filled);
      assert ColumnRule("Embarked", ports) == filled;
      SetByRule(t, "Embarked", filled);
    }
  }

  lemma CapitalizeSexStep(t: Table)
    ensures RewritesOne(t, CapitalizeSex(t), "Sex")
  {
    if Has(t, "Sex") {
      SetByRule(t, "Sex", MapCells(Series(t, "Sex"), CapitalizeCell));
    }
  }

  lemma LabelSurvivedStep(t: Table)
    ensures RewritesOne(t, LabelSurvived(t), "Survived")
  {
    if Has(t, "Survived") {
      SetByRule(t, "Survived", MapCells(Series(t, "Survived"), SurvivedLabel));
    }
  }

  lemma DropUnusedStep(t: Table)
    ensures var d := DropUnused(t);
      && d.nrows == t.nrows
      && Names(d.cols) == KeepNames(Names(t.cols), DropLabels)
      && (Valid(t) ==> Valid(d))
      && (forall b :: Has(d, b) <==> Has(t, b) && b !in DropLabels)
      && (forall b :: Has(d, b) ==> Series(d, b) == Series(t, b))
  {
    KeepNamesSameLabels(Names(t.cols), Present(DropLabels, Names(t.cols)), DropLabels);
  }

  /** A successful `clean_data` keeps every row and turns each column into
      the rule's image of the same column under its normalised name; the
      columns are the normalised input headers in input order, without
      `Cabin`, `Ticket` and `Name`. */
  lemma CleanByColumn(raw: Table)
    requires Valid(raw) && Clean(raw).Ok?
    ensures var h := NormalizeHeaders(raw);
      var c := Clean(raw).value;
      && Valid(c)
      && c.nrows == raw.nrows
      && Names(c.cols) == KeepNames(NormalizedNames(Names(raw.cols)), DropLabels)
      && (forall b :: Has(c, b) <==> Has(h, b) && b !in DropLabels)
      && (forall b :: Has(c, b) ==> Has(h, b) && Series(c, b) == ColumnRule(b, Series(h, b)))
  {
    var h := NormalizeHeaders(raw);
    var a := ImputeAge(h).value;
    ImputeAgeStep(h);
    var e := ImputeEmbarked(a).value;
    ImputeEmbarkedStep(a);
    var d := DropUnused(e);
    DropUnusedStep(e);
    var x := CapitalizeSex(d);
    CapitalizeSexStep(d);
    var c := LabelSurvived(x);
    LabelSurvivedStep(x);
    assert Clean(raw).value == c;
    forall b | Has(c, b) ensures Has(h, b) && Series(c, b) == ColumnRule(b, Series(h, b)) {
      assert Has(x, b) && Has(d, b) && Has(e, b) && Has(a, b);
      if b == "Age" {
        assert Series(c, b) == Series(x, b) == Series(d, b) == Series(e, b) == Series(a, b);
      } else if b == "Embarked" {
        assert Series(c, b) == Series(x, b) == Series(d, b) == Series(e, b);
        assert Series(a, b) == Series(h, b);
      } else if b == "Sex" {
        assert Series(x, b) == ColumnRule(b, Series(d, b));
        assert Series(d, b) == Series(e, b) == Series(a, b) == Series(h, b);
      } else if b == "Survived" {
        assert Series(d, b) == Series(e, b) == Series(a, b) == Series(h, b);
      } else {
        assert Series(c, b) == Series(x, b) == Series(d, b) == Series(e, b) == Series(a, b) == Series(h, b);
      }
    }
  }

  /** The dropped columns are gone whatever their case or padding in the
      input: no output header is `Cabin`, `Ticket` or `Name`, and no input
      header that normalises to one of them survives. */
  lemma CleanDropsColumns(raw: Table, n: string)
    requires Valid(raw) && Clean(raw).Ok?
    requires n in Names(raw.cols)
    ensures NormalizeHeader(n) in DropLabels <==> !Has(Clean(raw).value, NormalizeHeader(n))
    ensures forall l :: l in DropLabels ==> !Has(Clean(raw).value, l)
  {
    CleanByColumn(raw);
    var i :| 0 <= i < |raw.cols| && raw.cols[i].name == n;
    assert NormalizedNames(Names(raw.cols))[i] == NormalizeHeader(n);
  }

  /** Every output header is a normalised input header: stripped, first
      letter upper case, the rest lower case. */
  lemma CleanHeadersNormalized(raw: Table, b: string)
    requires Valid(raw) && Clean(raw).Ok?
    requires Has(Clean(raw).value, b)
    ensures exists n :: n in Names(raw.cols) && b == NormalizeHeader(n)
    ensures NormalizeHeader(b) == b
  {
    CleanByColumn(raw);
    var names := NormalizedNames(Names(raw.cols));
    var i :| 0 <= i < |names| && names[i] == b;
    assert Names(raw.cols)[i] in Names(raw.cols);
    NormalizeHeaderIdempotent(Names(raw.cols)[i]);
  }

  // ----- properties of the column rules ----------------------------------

  /** Age imputation: when the column holds no text and some number, no age
      is missing afterwards, every missing age becomes the median of the
      original numbers, and every other age is unchanged; when it holds no
      number at all (the median is NaN) the column is left as it was. */
  lemma AgeRule(s: seq<Value>)
    requires !HasText(s)
    ensures Numbers(s) == [] ==> ColumnRule("Age", s) == s
    ensures Numbers(s) != [] ==>
      var m := Median(Numbers(s));
      var r := ColumnRule("Age", s);
      && |r| == |s|
      && (forall k :: 0 <= k < |s| ==> r[k].Num?)
      && (forall k :: 0 <= k < |s| && s[k] == Missing ==> r[k] == Num(m))
      && (forall k :: 0 <= k < |s| && s[k] != Missing ==> r[k] == s[k])
  {
    var r := ColumnRule("Age", s);
    if Numbers(s) == [] {
      assert r == s;
    } else {
      forall k | 0 <= k < |s| ensures r[k].Num? {
        assert !s[k].Str?;
      }
    }
  }

  /** Port imputation: when some port is known, none is missing afterwards,
      every missing one becomes a most frequent known port (the one met first
      among those of that count), and the others are unchanged. */
  lemma EmbarkedRule(s: seq<Value>)
    requires exists k :: 0 <= k < |s| && s[k] != Missing
    ensures Mode(s).Some?
    ensures var m := Mode(s).value;
      var r := ColumnRule("Embarked", s);
      && m in s && m != Missing
      && (forall v :: v in s && v != Missing ==> Occ(s, v) <= Occ(s, m))
      && (forall k :: 0 <= k < |s| && s[k] != Missing && Occ(s, s[k]) == Occ(s, m) ==> m in s[..k + 1])
      && |r| == |s|
      && (forall k :: 0 <= k < |s| ==> r[k] != Missing)
      && (forall k :: 0 <= k < |s| && s[k] == Missing ==> r[k] == m)
      && (forall k :: 0 <= k < |s| && s[k] != Missing ==> r[k] == s[k])
  {
    ModeFirst(s);
  }

  /** A capitalised cell is either missing or text whose first letter is not
      lower case and whose other letters are not upper case. */
  predicate Capitalized(v: Value) {
    v == Missing || (v.Str? && (v.s != [] ==> !IsLowerLetter(v.s[0])) &&
      forall k :: 0 < k < |v.s| ==> !IsUpperLetter(v.s[k]))
  }

  /** `Sex` rule: every cell ends up capitalised, and capitalising the
      column a second time changes nothing. */
  lemma SexRule(s: seq<Value>)
    ensures var r := ColumnRule("Sex", s);
      && (forall k :: 0 <= k < |r| ==> Capitalized(r[k]))
      && ColumnRule("Sex", r) == r
  {
    var r := ColumnRule("Sex", s);
    forall k | 0 <= k < |r| ensures CapitalizeCell(r[k]) == r[k] {
      if s[k].Str? {
        CapitalizeIdempotent(s[k].s);
      }
    }
  }

  /** `Survived` rule: 0 becomes `No`, 1 becomes `Yes`, anything else is
      missing; no row is removed. */
  lemma SurvivedRule(s: seq<Value>)
    ensures var r := ColumnRule("Survived", s);
      && |r| == |s|
      && (forall k :: 0 <= k < |s| ==> (r[k] == Str("No") <==> s[k] == Num(0.0)))
      && (forall k :: 0 <= k < |s| ==> (r[k] == Str("Yes") <==> s[k] == Num(1.0)))
      && (forall k :: 0 <= k < |s| ==> (r[k] == Missing <==> s[k] != Num(0.0) && s[k] != Num(1.0)))
  {
  }

  /** The headers of a cleaned table are already normalised, so the first
      step of a second `clean_data` leaves it as it is. */
  lemma CleanedHeadersStay(raw: Table)
    requires Valid(raw) && Clean(raw).Ok?
    ensures NormalizeHeaders(Clean(raw).value) == Clean(raw).value
  {
    var c := Clean(raw).value;
    var h2 := NormalizeHeaders(c);
    forall i | 0 <= i < |c.cols| ensures h2.cols[i] == c.cols[i] {
      assert Names(c.cols)[i] == c.cols[i].name;
      CleanHeadersNormalized(raw, c.cols[i].name);
    }
  }

  /** A second `clean_data` never fails: the cleaned `Age` holds no text
      and the cleaned `Embarked`, when present, has a known port in every
      row. */
  lemma CleanAgainOk(raw: Table)
    requires Valid(raw) && Clean(raw).Ok?
    ensures var c := Clean(raw).value;
      && (Has(c, "Age") ==> !HasText(Series(c, "Age")))
      && (Has(c, "Embarked") ==>
            forall k :: 0 <= k < |Series(c, "Embarked")| ==> Series(c, "Embarked")[k] != Missing)
    ensures Clean(Clean(raw).value).Ok?
  {
    var h := NormalizeHeaders(raw);
    var c := Clean(raw).value;
    CleanByColumn(raw);
    CleanedHeadersStay(raw);
    CleanFails(raw);
    CleanFails(c);
    if Has(c, "Age") {
      var s := Series(h, "Age");
      AgeRule(s);
      assert !HasText(Series(c, "Age"));
    }
    if Has(c, "Embarked") {
      var s := Series(h, "Embarked");
      var k :| 0 <= k < |s| && s[k] != Missing;
      EmbarkedRule(s);
      assert Series(c, "Embarked")[k] != Missing;
    }
  }

  /** Labelling a column of labels leaves nothing but missing cells. */
  lemma RelabelErases(s: seq<Value>)
    requires forall k :: 0 <= k < |s| ==> s[k] == Str("No") || s[k] == Str("Yes") || s[k] == Missing
    ensures forall k :: 0 <= k < |s| ==> ColumnRule("Survived", s)[k] == Missing
  {
  }

  /** Cleaning is not idempotent: on an already-clean table the `Survived`
      labels are not 0 or 1, so a second `clean_data` makes every one of them
      missing, and changes the table as soon as one label was present. */
  lemma CleanTwiceErasesSurvived(raw: Table)
    requires Valid(raw) && Clean(raw).Ok?
    requires Has(Clean(raw).value, "Survived")
    ensures Clean(Clean(raw).value).Ok?
    ensures var c := Clean(raw).value;
      var c2 := Clean(c).value;
      && Has(c2, "Survived")
      && (forall k :: 0 <= k < |Series(c2, "Survived")| ==> Series(c2, "Survived")[k] == Missing)
      && ((exists k :: 0 <= k < |Series(c, "Survived")| && Series(c, "Survived")[k] != Missing) ==> c2 != c)
  {
    var c := Clean(raw).value;
    CleanAgainOk(raw);
    CleanByColumn(raw);
    CleanedHeadersStay(raw);
    CleanByColumn(c);
    var c2 := Clean(c).value;
    var s := Series(NormalizeHeaders(raw), "Survived");
    assert Series(c, "Survived") == ColumnRule("Survived", s);
    SurvivedRule(s);
    assert Series(c2, "Survived") == ColumnRule("Survived", Series(c, "Survived"));
    RelabelErases(Series(c, "Survived"));
  }

  // ----- the in-place form of `clean_data` -------------------------------

  /** The working copy `clean_data` mutates. */
  class Frame {
    var nrows: nat
    var cols: seq<Column>

    function Contents(): Table
      reads this
    {
      Table(nrows, cols)
    }

    /** `df.copy()` */
    constructor (t: Table)
      ensures Contents() == t
    {
      nrows := t.nrows;
      cols := t.cols;
    }

    /** `df.columns = names` */
    method SetColumns(names: seq<string>)
      requires |names| == |cols|
      modifies this
      ensures Contents() == Rename(old(Contents()), names)
    {
      var before := cols;
      cols := seq(|before|, i requires 0 <= i < |before| => Column(names[i], before[i].values));
    }

    /** `df[name].fillna(v, inplace=True)` */
    method FillNa(name: string, v: Value)
      requires Has(Contents(), name)
      modifies this
      ensures Contents() == SetSeries(old(Contents()), name, FillMissing(Series(old(Contents()), name), v))
    {
      var i := IndexOf(Names(cols), name);
      cols := cols[i := Column(name, FillMissing(cols[i].values, v))];
    }

    /** `df.drop(labels, axis=1, inplace=True)`: a label that is not a column
        is a `KeyError` and leaves the frame as it was. */
    method DropColumns(labels: seq<string>) returns (ok: bool)
      modifies this
      ensures ok <==> forall l :: l in labels ==> Has(old(Contents()), l)
      ensures Contents() == if ok then Drop(old(Contents()), labels) else old(Contents())
    {
      ok := forall l :: l in labels ==> l in Names(cols);
      if ok {
        cols := Drop(Contents(), labels).cols;
      }
    }

    /** `df[name] = values`: an existing column is replaced in place, a new
        one is appended. */
    method Assign(name: string, values: seq<Value>)
      modifies this
      ensures Contents() == if Has(old(Contents()), name) then SetSeries(old(Contents()), name, values)
                         else Table(old(nrows), old(cols) + [Column(name, values)])
    {
      if name in Names(cols) {
        cols := SetSeries(Contents(), name, values).cols;
      } else {
        cols := cols + [Column(name, values)];
      }
    }
  }

  /** `clean_data(df)`, step by step on a copy of the table. */
  method CleanData(raw: Table) returns (r: Result<Table, CleanError>)
    ensures r == Clean(raw)
  {
    var df := new Frame(raw);
    df.SetColumns(NormalizedNames(Names(df.cols)));
    assert df.Contents() == NormalizeHeaders(raw);
    if "Age" in Names(df.cols) {
      var median := SeriesMedian(Series(df.Contents(), "Age"));
      if median.Err? {
        return Err(median.error);
      }
      df.FillNa("Age", median.value);
    }
    if "Embarked" in Names(df.cols) {
      var mode := Mode(Series(df.Contents(), "Embarked"));
      if mode.None? {
        return Err(EmbarkedAllMissing);
      }
      df.FillNa("Embarked", mode.value);
    }
    var dropCols := Present(DropLabels, Names(df.cols));
    var ok := df.DropColumns(dropCols);
    assert ok;
    if "Sex" in Names(df.cols) {
      df.Assign("Sex", MapCells(Series(df.Contents(), "Sex"), CapitalizeCell));
    }
    if "Survived" in Names(df.cols) {
      df.Assign("Survived", MapCells(Series(df.Contents(), "Survived"), SurvivedLabel));
    }
    r := Ok(df.Contents());
  }
}
