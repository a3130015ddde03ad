/** Header and label text handling: Python's `str.strip()` and
    `str.capitalize()` over the ASCII range, as used for column names and
    for the `Sex` column. */
module Text {

  /** Python's `str.isspace()` restricted to ASCII: space, `\t` to `\r`,
      and the separators 0x1C to 0x1F. */
  predicate IsSpace(c: char) {
    c == ' ' || ('\t' <= c <= '\r') || ('\U{1C}' <= c <= '\U{1F}')
  }

  predicate IsUpperLetter(c: char) { 'A' <= c <= 'Z' }
  predicate IsLowerLetter(c: char) { 'a' <= c <= 'z' }

  function Upper(c: char): (u: char)
    ensures !IsLowerLetter(u)
    ensures IsSpace(u) <==> IsSpace(c)
  {
    if IsLowerLetter(c) then (c as int - 32) as char else c
  }

  function Lower(c: char): (l: char)
    ensures !IsUpperLetter(l)
    ensures IsSpace(l) <==> IsSpace(c)
  {
    if IsUpperLetter(c) then (c as int + 32) as char else c
  }

  /** Two characters agree in upper case exactly when they agree in lower case. */
  lemma UpperLowerAgree(c: char, d: char)
    ensures Upper(c) == Upper(d) <==> Lower(c) == Lower(d)
  {
  }

  function LowerAll(s: string): (r: string)
    ensures |r| == |s| && forall k :: 0 <= k < |s| ==> r[k] == Lower(s[k])
  {
    seq(|s|, k requires 0 <= k < |s| => Lower(s[k]))
  }

  /** The number of whitespace characters `str.lstrip()` removes. */
  function LeadingSpace(s: string): (n: nat)
    ensures n <= |s|
    ensures forall k :: 0 <= k < n ==> IsSpace(s[k])
    ensures n < |s| ==> !IsSpace(s[n])
  {
    if s != [] && IsSpace(s[0]) then 1 + LeadingSpace(s[1..]) else 0
  }

  /** The number of whitespace characters `str.rstrip()` removes. */
  function TrailingSpace(s: string): (n: nat)
    ensures n <= |s|
    ensures forall k :: |s| - n <= k < |s| ==> IsSpace(s[k])
    ensures n < |s| ==> !IsSpace(s[|s| - 1 - n])
  {
    if s != [] && IsSpace(s[|s| - 1]) then 1 + TrailingSpace(s[..|s| - 1]) else 0
  }

  /** `str.strip()`: the slice of `s` left after removing whitespace from both
      ends; what is cut is whitespace and what is kept neither starts nor ends
      with whitespace. */
  function Strip(s: string): (r: string)
    ensures LeadingSpace(s) + |r| <= |s|
    ensures r == s[LeadingSpace(s)..LeadingSpace(s) + |r|]
    ensures forall k :: 0 <= k < LeadingSpace(s) ==> IsSpace(s[k])
    ensures forall k :: LeadingSpace(s) + |r| <= k < |s| ==> IsSpace(s[k])
    ensures r != [] ==> !IsSpace(r[0]) && !IsSpace(r[|r| - 1])
  {
    var t := s[LeadingSpace(s)..];
    t[..|t| - TrailingSpace(t)]
  }

  /** A string without surrounding whitespace is its own strip. */
  lemma StripTrimmed(s: string)
    requires s != [] ==> !IsSpace(s[0]) && !IsSpace(s[|s| - 1])
    ensures Strip(s) == s
  {
    if s != [] {
      assert LeadingSpace(s) == 0;
      assert TrailingSpace(s) == 0;
    }
  }

  /** `str.capitalize()`: first character upper case, every other character
      lower case. */
  function Capitalize(s: string): (r: string)
    ensures |r| == |s|
    ensures s != [] ==> r[0] == Upper(s[0])
    ensures forall k :: 0 < k < |s| ==> r[k] == Lower(s[k])
  {
    if s == [] then [] else [Upper(s[0])] + LowerAll(s[1..])
  }

  /** Capitalising twice is capitalising once. */
  lemma CapitalizeIdempotent(s: string)
    ensures Capitalize(Capitalize(s)) == Capitalize(s)
  {
    var c := Capitalize(s);
    var cc := Capitalize(c);
    assert |cc| == |c|;
    forall k | 0 <= k < |c| ensures cc[k] == c[k] {
    }
  }

  /** Two strings capitalise alike exactly when they agree ignoring case. */
  lemma CapitalizeMatch(a: string, b: string)
    ensures Capitalize(a) == Capitalize(b) <==> LowerAll(a) == LowerAll(b)
  {
    if LowerAll(a) == LowerAll(b) {
      assert |a| == |b|;
      if a != [] {
        UpperLowerAgree(a[0], b[0]);
        assert LowerAll(a)[0] == LowerAll(b)[0];
      }
      forall k | 0 <= k < |a| ensures Capitalize(a)[k] == Capitalize(b)[k] {
        if k > 0 {
          assert LowerAll(a)[k] == LowerAll(b)[k];
        }
      }
    }
    if Capitalize(a) == Capitalize(b) {
      assert |a| == |b|;
      forall k | 0 <= k < |a| ensures LowerAll(a)[k] == LowerAll(b)[k] {
        if k == 0 {
          UpperLowerAgree(a[0], b[0]);
        } else {
          assert Capitalize(a)[k] == Capitalize(b)[k];
        }
      }
    }
  }

  /** The header normaliser of `clean_data`: strip, then capitalise. */
  function NormalizeHeader(s: string): string {
    Capitalize(Strip(s))
  }

  /** A normalised header carries no surrounding whitespace and is already
      in capitalised form, so normalising again changes nothing. */
  lemma {:induction false} NormalizeHeaderIdempotent(s: string)
    ensures NormalizeHeader(NormalizeHeader(s)) == NormalizeHeader(s)
  {
    var h := NormalizeHeader(s);
    var t := Strip(s);
    if t != [] {
      assert h[0] == Upper(t[0]);
      assert h[|h| - 1] == (if |t| == 1 then Upper(t[0]) else Lower(t[|t| - 1]));
    }
    StripTrimmed(h);
    CapitalizeIdempotent(t);
  }

  /** Headers are matched ignoring case and surrounding whitespace: two
      headers normalise to the same name exactly when their stripped forms
      agree in lower case. */
  lemma NormalizeHeaderMatch(a: string, b: string)
    ensures NormalizeHeader(a) == NormalizeHeader(b) <==> LowerAll(Strip(a)) == LowerAll(Strip(b))
  {
    CapitalizeMatch(Strip(a), Strip(b));
  }

  /** A header already in normal form. */
  lemma PlainHeader(s: string)
    requires s != [] && IsUpperLetter(s[0]) && forall k :: 0 < k < |s| ==> IsLowerLetter(s[k])
    ensures NormalizeHeader(s) == s
  {
    StripTrimmed(s);
    CapitalizedWord(s);
  }

  /** A word already in capitalised form. */
  lemma CapitalizedWord(s: string)
    requires s != [] && IsUpperLetter(s[0]) && forall k :: 0 < k < |s| ==> IsLowerLetter(s[k])
    ensures Capitalize(s) == s
  {
    assert forall k :: 0 <= k < |s| ==> Capitalize(s)[k] == s[k];
  }

  /** A lower-case word gains an upper-case initial. */
  lemma LowerWord(s: string)
    requires s != [] && forall k :: 0 <= k < |s| ==> IsLowerLetter(s[k])
    ensures Capitalize(s) == [Upper(s[0])] + s[1..]
  {
    assert forall k :: 0 < k < |s| ==> Capitalize(s)[k] == s[k];
  }

  lemma PclassStrip()
    ensures Strip(" PCLASS ") == "PCLASS"
  {
    var s := " PCLASS ";
    assert LeadingSpace(s[1..]) == 0;
    assert LeadingSpace(s) == 1;
    var t := s[1..];
    assert t[|t| - 1] == ' ';
    assert TrailingSpace(t[..|t| - 1]) == 0;
  }

  lemma PclassUpper()
    ensures Capitalize("PCLASS") == "Pclass"
  {
    var c := Capitalize("PCLASS");
    assert forall k :: 0 <= k < 6 ==> c[k] == "Pclass"[k];
  }

  lemma PclassCapitalize()
    ensures Capitalize("pclass") == "Pclass"
  {
    LowerWord("pclass");
    assert Upper('p') == 'P';
    assert ['P'] + "pclass"[1..] == "Pclass";
  }

  lemma PclassLower()
    ensures NormalizeHeader("pclass") == "Pclass"
  {
    StripTrimmed("pclass");
    PclassCapitalize();
  }

  /** The header `" PCLASS "` is read as `Pclass`, as is `pclass`. */
  lemma PclassHeaderExample()
    ensures NormalizeHeader(" PCLASS ") == "Pclass"
    ensures NormalizeHeader("pclass") == "Pclass"
  {
    PclassStrip();
    PclassUpper();
    PclassLower();
  }
}
