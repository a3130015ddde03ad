/** The two statistics `clean_data` imputes with: the median of the known
    ages (`Series.median()`) and the most frequent known port of embarkation
    (`Series.mode()[0]`). Ages are exact rationals. */
module Stats {
  import opened Tables

  predicate Sorted(s: seq<real>) {
    forall i, j :: 0 <= i < j < |s| ==> s[i] <= s[j]
  }

  /** Insert `x` into a sorted sequence in order. */
  function Insert(x: real, s: seq<real>): (r: seq<real>)
    requires Sorted(s)
    ensures |r| == |s| + 1 && r[0] == (if s == [] || x <= s[0] then x else s[0])
    ensures Sorted(r) && multiset(r) == multiset(s) + multiset{x}
  {
    if s == [] || x <= s[0] then [x] + s
    else
      assert s == [s[0]] + s[1..];
      [s[0]] + Insert(x, s[1..])
  }

  /** Insertion sort: a sorted permutation of `s`. */
  function Sort(s: seq<real>): (r: seq<real>)
    ensures Sorted(r) && multiset(r) == multiset(s)
    ensures |r| == |s|
  {
    if s == [] then []
    else
      assert multiset(s) == multiset{s[0]} + multiset(s[1..]) by {
        assert s == [s[0]] + s[1..];
      }
      Insert(s[0], Sort(s[1..]))
  }

  /** How many values are at most `m`, and how many at least `m`. */
  function CountLe(s: seq<real>, m: real): nat {
    if s == [] then 0 else (if s[0] <= m then 1 else 0) + CountLe(s[1..], m)
  }

  function CountGe(s: seq<real>, m: real): nat {
    if s == [] then 0 else (if s[0] >= m then 1 else 0) + CountGe(s[1..], m)
  }

  lemma {:induction false} InsertCounts(x: real, s: seq<real>, m: real)
    requires Sorted(s)
    ensures CountLe(Insert(x, s), m) == CountLe(s, m) + (if x <= m then 1 else 0)
    ensures CountGe(Insert(x, s), m) == CountGe(s, m) + (if x >= m then 1 else 0)
  {
    if s != [] && x > s[0] {
      InsertCounts(x, s[1..], m);
      assert ([s[0]] + Insert(x, s[1..]))[1..] == Insert(x, s[1..]);
    }
  }

  /** Sorting keeps the counts on either side of any value. */
  lemma {:induction false} SortCounts(s: seq<real>, m: real)
    ensures CountLe(Sort(s), m) == CountLe(s, m)
    ensures CountGe(Sort(s), m) == CountGe(s, m)
  {
    if s != [] {
      SortCounts(s[1..], m);
      InsertCounts(s[0], Sort(s[1..]), m);
    }
  }

  lemma {:induction false} CountLeMonotone(s: seq<real>, a: real, b: real)
    requires a <= b
    ensures CountLe(s, a) <= CountLe(s, b)
    ensures CountGe(s, b) <= CountGe(s, a)
  {
    if s != [] {
      CountLeMonotone(s[1..], a, b);
    }
  }

  lemma {:induction false} CountGeAll(s: seq<real>, m: real)
    requires forall i :: 0 <= i < |s| ==> s[i] >= m
    ensures CountGe(s, m) == |s|
  {
    if s != [] {
      CountGeAll(s[1..], m);
    }
  }

  /** In a sorted sequence, at least `k + 1` values are at most the one at
      position `k`, and at least `|s| - k` are at least it. */
  lemma {:induction false} SortedRank(s: seq<real>, k: nat)
    requires Sorted(s) && k < |s|
    ensures CountLe(s, s[k]) >= k + 1
    ensures CountGe(s, s[k]) >= |s| - k
  {
    if k == 0 {
      CountGeAll(s, s[0]);
    } else {
      SortedRank(s[1..], k - 1);
      assert s[1..][k - 1] == s[k];
    }
  }

  /** `Series.median()` of the known values: the middle value of the sorted
      values, or the mean of the two middle ones when their number is even. */
  function Median(s: seq<real>): real
    requires |s| > 0
  {
    var r := Sort(s);
    var h := |s| / 2;
    if |s| % 2 == 1 then r[h] else (r[h - 1] + r[h]) / 2.0
  }

  /** At least half of the values are at most the median, and at least half
      are at least it. */
  lemma MedianSplits(s: seq<real>)
    requires |s| > 0
    ensures 2 * CountLe(s, Median(s)) >= |s|
    ensures 2 * CountGe(s, Median(s)) >= |s|
  {
    var r := Sort(s);
    var h := |s| / 2;
    var m := Median(s);
    SortCounts(s, m);
    if |s| % 2 == 1 {
      SortedRank(r, h);
    } else {
      SortedRank(r, h - 1);
      SortedRank(r, h);
      CountLeMonotone(r, r[h - 1], m);
      CountLeMonotone(r, m, r[h]);
    }
  }

  lemma SortMembers(s: seq<real>)
    ensures forall x :: x in Sort(s) <==> x in s
  {
    var r := Sort(s);
    forall x ensures x in r <==> x in s {
      assert x in r <==> x in multiset(r);
    }
  }

  /** The median lies between the smallest and the largest value, and is one
      of the values when their number is odd. */
  lemma MedianBetween(s: seq<real>)
    requires |s| > 0
    ensures exists i :: 0 <= i < |s| && s[i] <= Median(s)
    ensures exists i :: 0 <= i < |s| && s[i] >= Median(s)
    ensures |s| % 2 == 1 ==> Median(s) in s
  {
    var r := Sort(s);
    var h := |s| / 2;
    var m := Median(s);
    SortMembers(s);
    assert r[0] <= m <= r[|r| - 1];
    assert r[0] in s && r[|r| - 1] in s;
    var i :| 0 <= i < |s| && s[i] == r[0];
    var i' :| 0 <= i' < |s| && s[i'] == r[|r| - 1];
    assert s[i] <= m;
    assert s[i'] >= m;
    if |s| % 2 == 1 {
      assert r[h] in r;
    }
  }

  /** The known (non-missing) cells, in order. */
  function Known(s: seq<Value>): (r: seq<Value>)
    ensures forall v :: v in r <==> v in s && v != Missing
  {
    if s == [] then [] else (if s[0] == Missing then [] else [s[0]]) + Known(s[1..])
  }

  lemma {:induction false} KnownAppend(a: seq<Value>, b: seq<Value>)
    ensures Known(a + b) == Known(a) + Known(b)
  {
    if a == [] {
      assert a + b == b;
    } else {
      var ab := a + b;
      assert ab[0] == a[0] && ab[1..] == a[1..] + b;
      KnownAppend(a[1..], b);
    }
  }

  /** The known values of a prefix ending in a known cell are a prefix of
      the known values, ending in that cell. */
  lemma KnownPrefix(s: seq<Value>, k: nat)
    requires k < |s| && s[k] != Missing
    ensures var p := Known(s[..k + 1]);
      && 0 < |p| <= |Known(s)|
      && Known(s)[..|p|] == p
      && p[|p| - 1] == s[k]
  {
    assert s == s[..k + 1] + s[k + 1..];
    KnownAppend(s[..k + 1], s[k + 1..]);
    assert s[..k + 1] == s[..k] + [s[k]];
    KnownAppend(s[..k], [s[k]]);
    assert Known([s[k]]) == [s[k]];
  }

  /** A known value that is first among the known values to reach its count
      appears no later than any other known value with that count. */
  lemma KnownFirst(s: seq<Value>, i: nat)
    requires i < |Known(s)|
    requires forall j :: 0 <= j < i ==> Occ(s, Known(s)[j]) < Occ(s, Known(s)[i])
    ensures forall k :: 0 <= k < |s| && s[k] != Missing && Occ(s, s[k]) == Occ(s, Known(s)[i])
              ==> Known(s)[i] in s[..k + 1]
  {
    var known := Known(s);
    forall k | 0 <= k < |s| && s[k] != Missing && Occ(s, s[k]) == Occ(s, known[i])
      ensures known[i] in s[..k + 1]
    {
      KnownPrefix(s, k);
      var p := Known(s[..k + 1]);
      assert known[|p| - 1] == p[|p| - 1];
      assert i < |p|;
      assert known[i] == p[i];
      assert p[i] in p;
    }
  }

  /** The position of the first candidate with the highest count in `s`:
      no candidate occurs more often, and every earlier one strictly less
      often. */
  function MostFrequent(s: seq<Value>, cands: seq<Value>): (i: nat)
    requires |cands| > 0
    ensures i < |cands|
    ensures forall j :: 0 <= j < |cands| ==> Occ(s, cands[j]) <= Occ(s, cands[i])
    ensures forall j :: 0 <= j < i ==> Occ(s, cands[j]) < Occ(s, cands[i])
  {
    if |cands| == 1 then 0
    else
      var b := MostFrequent(s, cands[1..]);
      assert forall j :: 0 < j < |cands| ==> cands[j] == cands[1..][j - 1];
      if Occ(s, cands[0]) >= Occ(s, cands[1..][b]) then 0 else b + 1
  }

  /** `Series.mode()[0]`: a most frequent known value, ties going to the one
      met first; `None` when no value is known (indexing the empty mode fails). */
  function Mode(s: seq<Value>): (r: Option<Value>)
    ensures r.None? <==> forall k :: 0 <= k < |s| ==> s[k] == Missing
    ensures r.Some? ==> r.value != Missing && r.value in s
    ensures r.Some? ==> forall v :: v in s && v != Missing ==> Occ(s, v) <= Occ(s, r.value)
  {
    var known := Known(s);
    if known == [] then
      assert forall k :: 0 <= k < |s| ==> s[k] in s;
      None
    else
      var i := MostFrequent(s, known);
      assert known[i] in known && known[0] in known;
      Some(known[i])
  }

  /** Ties go to the value met first: no known value with the mode's count
      appears before the mode does. */
  lemma ModeFirst(s: seq<Value>)
    requires Mode(s).Some?
    ensures forall k :: 0 <= k < |s| && s[k] != Missing && Occ(s, s[k]) == Occ(s, Mode(s).value)
              ==> Mode(s).value in s[..k + 1]
  {
    KnownFirst(s, MostFrequent(s, Known(s)));
  }
}
