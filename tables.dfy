/** The parsed passenger table that every stage of the pipeline reads and
    produces, with the pandas operations the stages are built from: column
    lookup (`df[name]`), column assignment (`df[name] = ...`), dropping
    columns (`df.drop(labels, axis=1)`) and selecting rows with a boolean
    mask (`df[mask]`). */
module Tables {

  datatype Option<T> = None | Some(value: T)

  datatype Result<T, E> = Ok(value: T) | Err(error: E)

  /** One cell. `Missing` is pandas' NaN; every number is a `Num`, since
      Python compares integers and floats by value. */
  datatype Value = Missing | Num(n: real) | Str(s: string)

  datatype Column = Column(name: string, values: seq<Value>)

  /** A frame stored column by column, as pandas stores it. The row count is
      kept apart so that a table with no column left still has its rows. */
  datatype Table = Table(nrows: nat, cols: seq<Column>)

  /** Every column holds one value per row. */
  predicate Valid(t: Table) {
    forall i :: 0 <= i < |t.cols| ==> |t.cols[i].values| == t.nrows
  }

  function Names(cols: seq<Column>): seq<string> {
    seq(|cols|, i requires 0 <= i < |cols| => cols[i].name)
  }

  lemma NamesTail(cols: seq<Column>)
    requires cols != []
    ensures Names(cols) == [cols[0].name] + Names(cols[1..])
  {
  }

  predicate Has(t: Table, name: string) {
    name in Names(t.cols)
  }

  /** The position of the first column called `n`. */
  function IndexOf(names: seq<string>, n: string): (i: nat)
    requires n in names
    ensures i < |names| && names[i] == n
    ensures forall j :: 0 <= j < i ==> names[j] != n
  {
    if names[0] == n then 0 else 1 + IndexOf(names[1..], n)
  }

  /** `df[name]`: the values of the first column called `name`. */
  function Series(t: Table, name: string): (s: seq<Value>)
    requires Has(t, name)
    ensures Valid(t) ==> |s| == t.nrows
  {
    t.cols[IndexOf(Names(t.cols), name)].values
  }

  /** `df[name] = values` for a column that exists: the column is rewritten
      in place, every other column and the column order stay as they were. */
  function SetSeries(t: Table, name: string, values: seq<Value>): (r: Table)
    requires Has(t, name)
    ensures r.nrows == t.nrows && Names(r.cols) == Names(t.cols)
    ensures Series(r, name) == values
    ensures forall b :: Has(t, b) && b != name ==> Series(r, b) == Series(t, b)
    ensures Valid(t) && |values| == t.nrows ==> Valid(r)
  {
    var i := IndexOf(Names(t.cols), name);
    var r := t.(cols := t.cols[i := Column(name, values)]);
    assert Names(r.cols) == Names(t.cols);
    r
  }

  /** The names that survive dropping `labels`, in their original order. */
  function KeepNames(names: seq<string>, labels: seq<string>): (r: seq<string>)
    ensures forall b :: b in r <==> b in names && b !in labels
  {
    if names == [] then []
    else (if names[0] in labels then [] else [names[0]]) + KeepNames(names[1..], labels)
  }

  function KeepColumns(cols: seq<Column>, labels: seq<string>): seq<Column> {
    if cols == [] then []
    else (if cols[0].name in labels then [] else [cols[0]]) + KeepColumns(cols[1..], labels)
  }

  lemma {:induction false} KeepColumnsNames(cols: seq<Column>, labels: seq<string>)
    ensures Names(KeepColumns(cols, labels)) == KeepNames(Names(cols), labels)
  {
    if cols != [] {
      NamesTail(cols);
      KeepColumnsNames(cols[1..], labels);
      var head := if cols[0].name in labels then [] else [cols[0]];
      assert KeepColumns(cols, labels) == head + KeepColumns(cols[1..], labels);
      assert Names(head + KeepColumns(cols[1..], labels))
          == Names(head) + Names(KeepColumns(cols[1..], labels));
    }
  }

  lemma {:induction false} KeepColumnsLookup(cols: seq<Column>, labels: seq<string>, b: string)
    requires b in Names(KeepColumns(cols, labels))
    ensures b in Names(cols)
    ensures KeepColumns(cols, labels)[IndexOf(Names(KeepColumns(cols, labels)), b)].values
         == cols[IndexOf(Names(cols), b)].values
  {
    KeepColumnsNames(cols, labels);
    NamesTail(cols);
    var rest := KeepColumns(cols[1..], labels);
    if cols[0].name in labels {
      assert KeepColumns(cols, labels) == rest;
      assert b != cols[0].name;
      KeepColumnsLookup(cols[1..], labels, b);
    } else {
      assert KeepColumns(cols, labels) == [cols[0]] + rest;
      NamesTail(KeepColumns(cols, labels));
      if cols[0].name != b {
        KeepColumnsLookup(cols[1..], labels, b);
      }
    }
  }

  /** `df.drop(labels, axis=1)` for labels that are all present: every column
      whose name is one of `labels` goes, the others keep their order and
      their values. */
  function Drop(t: Table, labels: seq<string>): (r: Table)
    ensures r.nrows == t.nrows
    ensures Names(r.cols) == KeepNames(Names(t.cols), labels)
    ensures forall b :: Has(r, b) <==> Has(t, b) && b !in labels
    ensures forall b :: Has(r, b) ==> Has(t, b) && Series(r, b) == Series(t, b)
    ensures Valid(t) ==> Valid(r)
  {
    DropFacts(t, labels);
    Table(t.nrows, KeepColumns(t.cols, labels))
  }

  lemma DropFacts(t: Table, labels: seq<string>)
    ensures var r := Table(t.nrows, KeepColumns(t.cols, labels));
      && Names(r.cols) == KeepNames(Names(t.cols), labels)
      && (forall b :: Has(r, b) ==> Has(t, b) && Series(r, b) == Series(t, b))
      && (Valid(t) ==> Valid(r))
  {
    var r := Table(t.nrows, KeepColumns(t.cols, labels));
    KeepColumnsNames(t.cols, labels);
    forall b | Has(r, b) ensures Has(t, b) && Series(r, b) == Series(t, b) {
      KeepColumnsLookup(t.cols, labels, b);
    }
    if Valid(t) {
      forall i | 0 <= i < |r.cols| ensures |r.cols[i].values| == r.nrows {
        KeepColumnsValid(t.cols, labels, t.nrows, i);
      }
    }
  }

  lemma {:induction false} KeepColumnsValid(cols: seq<Column>, labels: seq<string>, n: nat, i: nat)
    requires forall j :: 0 <= j < |cols| ==> |cols[j].values| == n
    requires i < |KeepColumns(cols, labels)|
    ensures |KeepColumns(cols, labels)[i].values| == n
  {
    var rest := KeepColumns(cols[1..], labels);
    if cols[0].name in labels {
      assert KeepColumns(cols, labels) == rest;
      KeepColumnsValid(cols[1..], labels, n, i);
    } else if i > 0 {
      assert KeepColumns(cols, labels) == [cols[0]] + rest;
      KeepColumnsValid(cols[1..], labels, n, i - 1);
    }
  }

  /** The number of rows a boolean mask selects. */
  function CountTrue(keep: seq<bool>): nat {
    if keep == [] then 0 else (if keep[0] then 1 else 0) + CountTrue(keep[1..])
  }

  lemma {:induction false} CountTrueNone(keep: seq<bool>)
    requires forall k :: 0 <= k < |keep| ==> !keep[k]
    ensures CountTrue(keep) == 0
  {
    if keep != [] {
      CountTrueNone(keep[1..]);
    }
  }

  function ShiftUp(p: seq<nat>): (r: seq<nat>)
    ensures |r| == |p| && forall j :: 0 <= j < |p| ==> r[j] == p[j] + 1
  {
    seq(|p|, j requires 0 <= j < |p| => p[j] + 1)
  }

  /** The row numbers a boolean mask selects, in increasing order. */
  function Positions(keep: seq<bool>): (p: seq<nat>)
    ensures |p| == CountTrue(keep)
    ensures forall j :: 0 <= j < |p| ==> p[j] < |keep|
  {
    if keep == [] then []
    else (if keep[0] then [0] else []) + ShiftUp(Positions(keep[1..]))
  }

  /** Every listed position is a selected row. */
  lemma {:induction false} PositionsSelected(keep: seq<bool>)
    ensures forall j :: 0 <= j < |Positions(keep)| ==> keep[Positions(keep)[j]]
  {
    if keep != [] {
      PositionsSelected(keep[1..]);
      var rest := Positions(keep[1..]);
      var p := Positions(keep);
      forall j | 0 <= j < |p| ensures keep[p[j]] {
        if !keep[0] || j > 0 {
          var j0 := if keep[0] then j - 1 else j;
          assert p[j] == rest[j0] + 1;
          assert keep[1..][rest[j0]];
        }
      }
    }
  }

  /** The positions are strictly increasing. */
  lemma {:induction false} PositionsIncreasing(keep: seq<bool>)
    ensures forall j, j' :: 0 <= j < j' < |Positions(keep)| ==> Positions(keep)[j] < Positions(keep)[j']
  {
    if keep != [] {
      PositionsIncreasing(keep[1..]);
    }
  }

  /** Every selected row is listed. */
  lemma {:induction false} PositionsComplete(keep: seq<bool>)
    ensures forall k :: 0 <= k < |keep| && keep[k] ==> k in Positions(keep)
  {
    if keep != [] {
      PositionsComplete(keep[1..]);
      var rest := Positions(keep[1..]);
      var p := Positions(keep);
      forall k | 0 <= k < |keep| && keep[k] ensures k in p {
        if k > 0 {
          assert keep[1..][k - 1];
          var j :| 0 <= j < |rest| && rest[j] == k - 1;
          assert p[j + (if keep[0] then 1 else 0)] == k;
        }
      }
    }
  }

  /** The elements of `s` at the positions `keep` selects, in order. */
  function Pick<T>(s: seq<T>, keep: seq<bool>): seq<T>
    requires |s| == |keep|
  {
    if s == [] then []
    else (if keep[0] then [s[0]] else []) + Pick(s[1..], keep[1..])
  }

  lemma {:induction false} PickLength<T>(s: seq<T>, keep: seq<bool>)
    requires |s| == |keep|
    ensures |Pick(s, keep)| == CountTrue(keep)
  {
    if s != [] {
      PickLength(s[1..], keep[1..]);
    }
  }

  lemma {:induction false} PickAtOne<T>(s: seq<T>, keep: seq<bool>, j: nat)
    requires |s| == |keep| && j < CountTrue(keep)
    ensures |Pick(s, keep)| == |Positions(keep)| && Pick(s, keep)[j] == s[Positions(keep)[j]]
  {
    PickLength(s, keep);
    var t := s[1..];
    var x := Pick(t, keep[1..]);
    var rest := Positions(keep[1..]);
    PickLength(t, keep[1..]);
    if keep[0] {
      assert Pick(s, keep) == [s[0]] + x;
      assert Positions(keep) == [0] + ShiftUp(rest);
      if j > 0 {
        PickAtOne(t, keep[1..], j - 1);
        assert Pick(s, keep)[j] == x[j - 1];
        assert Positions(keep)[j] == rest[j - 1] + 1;
      }
    } else {
      assert Pick(s, keep) == x;
      assert Positions(keep) == ShiftUp(rest);
      PickAtOne(t, keep[1..], j);
    }
  }

  /** Element `j` of a selection is the element at the `j`-th selected position. */
  lemma PickAt<T>(s: seq<T>, keep: seq<bool>)
    requires |s| == |keep|
    ensures |Pick(s, keep)| == CountTrue(keep)
    ensures forall j :: 0 <= j < CountTrue(keep) ==> Pick(s, keep)[j] == s[Positions(keep)[j]]
  {
    PickLength(s, keep);
    forall j | 0 <= j < CountTrue(keep) ensures Pick(s, keep)[j] == s[Positions(keep)[j]] {
      PickAtOne(s, keep, j);
    }
  }

  function AllTrue(n: nat): seq<bool> {
    seq(n, k => true)
  }

  lemma {:induction false} PickAll<T>(s: seq<T>)
    ensures Pick(s, AllTrue(|s|)) == s
    ensures CountTrue(AllTrue(|s|)) == |s|
  {
    if s != [] {
      assert AllTrue(|s|)[1..] == AllTrue(|s| - 1);
      PickAll(s[1..]);
    }
  }

  function And(a: seq<bool>, b: seq<bool>): seq<bool>
    requires |a| == |b|
  {
    seq(|a|, k requires 0 <= k < |a| => a[k] && b[k])
  }

  /** Selecting with `a`, then with what remains of `b`, is selecting with
      `a` and `b` together. */
  lemma {:induction false} PickPick<T>(s: seq<T>, a: seq<bool>, b: seq<bool>)
    requires |s| == |a| == |b|
    ensures |Pick(b, a)| == |Pick(s, a)|
    ensures Pick(Pick(s, a), Pick(b, a)) == Pick(s, And(a, b))
    ensures CountTrue(Pick(b, a)) == CountTrue(And(a, b))
  {
    PickAt(s, a);
    PickAt(b, a);
    if s != [] {
      assert And(a, b)[1..] == And(a[1..], b[1..]);
      PickPick(s[1..], a[1..], b[1..]);
      var x, y := Pick(s[1..], a[1..]), Pick(b[1..], a[1..]);
      if a[0] {
        assert Pick(s, a) == [s[0]] + x;
        assert Pick(b, a) == [b[0]] + y;
        assert ([s[0]] + x)[1..] == x;
        assert ([b[0]] + y)[1..] == y;
      } else {
        assert Pick(s, a) == x;
        assert Pick(b, a) == y;
      }
    }
  }

  /** `df[mask]`: the rows the mask selects, in their original order. */
  function SelectRows(t: Table, keep: seq<bool>): (r: Table)
    requires Valid(t) && |keep| == t.nrows
    ensures Valid(r) && r.nrows == CountTrue(keep) && r.nrows <= t.nrows
    ensures Names(r.cols) == Names(t.cols)
    ensures forall b :: Has(t, b) ==> Series(r, b) == Pick(Series(t, b), keep)
  {
    var cols := seq(|t.cols|, i requires 0 <= i < |t.cols| =>
      Column(t.cols[i].name, Pick(t.cols[i].values, keep)));
    forall i | 0 <= i < |t.cols| ensures |cols[i].values| == CountTrue(keep) {
      PickAt(t.cols[i].values, keep);
    }
    CountTrueBound(keep);
    var r := Table(CountTrue(keep), cols);
    assert Names(r.cols) == Names(t.cols);
    r
  }

  lemma {:induction false} CountTrueBound(keep: seq<bool>)
    ensures CountTrue(keep) <= |keep|
  {
    if keep != [] {
      CountTrueBound(keep[1..]);
    }
  }

  /** Row `k` of a table, one value per column. */
  function Row(t: Table, k: nat): seq<Value>
    requires Valid(t) && k < t.nrows
  {
    seq(|t.cols|, i requires 0 <= i < |t.cols| => t.cols[i].values[k])
  }

  /** A row selection is an order-preserving subsequence of the table's rows:
      its `j`-th row is the table's row at the `j`-th selected position, and
      a row is selected exactly when its mask entry is true. */
  lemma SelectRowsSubsequence(t: Table, keep: seq<bool>)
    requires Valid(t) && |keep| == t.nrows
    ensures var r := SelectRows(t, keep);
      && r.nrows == |Positions(keep)|
      && (forall j :: 0 <= j < r.nrows ==> Positions(keep)[j] < t.nrows && Row(r, j) == Row(t, Positions(keep)[j]))
      && (forall k :: 0 <= k < t.nrows ==> (k in Positions(keep) <==> keep[k]))
  {
    var r := SelectRows(t, keep);
    PositionsSelected(keep);
    PositionsComplete(keep);
    forall j | 0 <= j < r.nrows ensures Positions(keep)[j] < t.nrows && Row(r, j) == Row(t, Positions(keep)[j]) {
      forall i | 0 <= i < |t.cols| ensures r.cols[i].values[j] == t.cols[i].values[Positions(keep)[j]] {
        PickAt(t.cols[i].values, keep);
      }
    }
  }

  /** Selecting every row gives back the table. */
  lemma SelectAll(t: Table)
    requires Valid(t)
    ensures SelectRows(t, AllTrue(t.nrows)) == t
  {
    var r := SelectRows(t, AllTrue(t.nrows));
    PickAll(seq(t.nrows, k => true));
    forall i | 0 <= i < |t.cols| ensures r.cols[i] == t.cols[i] {
      PickAll(t.cols[i].values);
    }
  }

  /** Two selections in a row are one selection with both masks. */
  lemma SelectTwice(t: Table, a: seq<bool>, b: seq<bool>)
    requires Valid(t) && |a| == |b| == t.nrows
    ensures |Pick(b, a)| == SelectRows(t, a).nrows
    ensures SelectRows(SelectRows(t, a), Pick(b, a)) == SelectRows(t, And(a, b))
  {
    PickPick(a, a, b);
    PickAt(a, a);
    var r1 := SelectRows(t, a);
    var r2 := SelectRows(r1, Pick(b, a));
    var r := SelectRows(t, And(a, b));
    forall i | 0 <= i < |t.cols| ensures r2.cols[i] == r.cols[i] {
      PickPick(t.cols[i].values, a, b);
    }
  }

  /** The number of cells of `s` equal to `v`. */
  function Occ(s: seq<Value>, v: Value): nat {
    if s == [] then 0 else (if s[0] == v then 1 else 0) + Occ(s[1..], v)
  }
}
