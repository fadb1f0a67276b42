/**
  Normalisation of the user's query: Python's `str.title()`, restricted to
  ASCII. Every run of letters gets an upper-case first letter and lower-case
  remaining letters; every other character is left as it is and ends a run.
  Python calls a character "cased" when it has an upper- and a lower-case
  form; over ASCII those are exactly the letters, so digits and apostrophes
  start a new word (`"1st"` becomes `"1St"`, `"they're"` becomes `"They'Re"`).
*/
module TitleCasing {

  predicate IsLetter(c: char) {
    ('A' <= c <= 'Z') || ('a' <= c <= 'z')
  }

  predicate IsUpper(c: char) {
    'A' <= c <= 'Z'
  }

  predicate IsLower(c: char) {
    'a' <= c <= 'z'
  }

  /** ASCII `str.upper()` of one character. */
  function Upper(c: char): (u: char)
    ensures IsLetter(u) <==> IsLetter(c)
    ensures IsLetter(c) ==> IsUpper(u)
    ensures !IsLetter(c) ==> u == c
    ensures IsUpper(c) ==> u == c
  {
    if IsLower(c) then (c as int - 'a' as int + 'A' as int) as char else c
  }

  /** ASCII `str.lower()` of one character. */
  function Lower(c: char): (l: char)
    ensures IsLetter(l) <==> IsLetter(c)
    ensures IsLetter(c) ==> IsLower(l)
    ensures !IsLetter(c) ==> l == c
    ensures IsLower(c) ==> l == c
  {
    if IsUpper(c) then (c as int - 'A' as int + 'a' as int) as char else c
  }

  /** Changing the case of a letter keeps the letter: both forms have one upper and one lower form. */
  lemma CaseForms(c: char)
    ensures Upper(Lower(c)) == Upper(c) && Lower(Upper(c)) == Lower(c)
    ensures Upper(Upper(c)) == Upper(c) && Lower(Lower(c)) == Lower(c)
  {
  }

  /** Position `i` of `s` begins a word: no letter immediately precedes it. */
  predicate StartsWord(s: string, i: int)
    requires 0 <= i < |s|
  {
    i == 0 || !IsLetter(s[i - 1])
  }

  /** `s` is in title case: word-initial letters are upper case, all other letters lower case. */
  predicate IsTitleCased(s: string) {
    forall i :: 0 <= i < |s| && IsLetter(s[i]) ==>
      s[i] == (if StartsWord(s, i) then Upper(s[i]) else Lower(s[i]))
  }

  /**
    The character-by-character pass of `str.title()`, where `inWord` says
    whether the character before `s` was cased.
  */
  function TitleFrom(s: string, inWord: bool): (r: string)
    ensures |r| == |s|
    ensures forall i :: 0 <= i < |s| ==>
      r[i] == (if (if i == 0 then inWord else IsLetter(s[i - 1])) then Lower(s[i]) else Upper(s[i]))
  {
    if s == [] then []
    else [if inWord then Lower(s[0]) else Upper(s[0])] + TitleFrom(s[1..], IsLetter(s[0]))
  }

  /** `str.title()` of an ASCII string. */
  function TitleCase(s: string): (r: string)
    ensures |r| == |s|
    ensures IsTitleCased(r)
    ensures forall i :: 0 <= i < |s| ==> (IsLetter(r[i]) <==> IsLetter(s[i]))
    ensures forall i :: 0 <= i < |s| ==> Lower(r[i]) == Lower(s[i])
    ensures forall i :: 0 <= i < |s| && !IsLetter(s[i]) ==> r[i] == s[i]
  {
    var r := TitleFrom(s, false);
    forall i | 0 <= i < |s|
      ensures IsLetter(r[i]) <==> IsLetter(s[i])
      ensures Lower(r[i]) == Lower(s[i])
    {
      assert r[i] == (if i > 0 && IsLetter(s[i - 1]) then Lower(s[i]) else Upper(s[i]));
      CaseForms(s[i]);
    }
    assert forall i :: 0 <= i < |s| ==> (StartsWord(r, i) <==> StartsWord(s, i));
    forall i | 0 <= i < |r| && IsLetter(r[i])
      ensures r[i] == (if StartsWord(r, i) then Upper(r[i]) else Lower(r[i]))
    {
      CaseForms(s[i]);
    }
    r
  }

  /** The strings that title-casing leaves alone are exactly the title-cased ones. */
  lemma TitleCaseFixedPoints(s: string)
    ensures TitleCase(s) == s <==> IsTitleCased(s)
  {
    var r := TitleCase(s);
    if IsTitleCased(s) {
      forall i | 0 <= i < |s|
        ensures r[i] == s[i]
      {
        CaseForms(s[i]);
      }
    }
  }

  /** Title-casing twice is the same as title-casing once. */
  lemma TitleCaseIdempotent(s: string)
    ensures TitleCase(TitleCase(s)) == TitleCase(s)
  {
    TitleCaseFixedPoints(TitleCase(s));
  }

  /** Two strings that differ only in the case of their letters title-case to the same string. */
  lemma TitleCaseIgnoresCase(a: string, b: string)
    requires |a| == |b|
    requires forall i :: 0 <= i < |a| ==> Lower(a[i]) == Lower(b[i])
    ensures TitleCase(a) == TitleCase(b)
  {
    var ra, rb := TitleCase(a), TitleCase(b);
    forall i | 0 <= i < |a|
      ensures ra[i] == rb[i]
    {
      CaseForms(a[i]);
      CaseForms(b[i]);
      if i > 0 {
        CaseForms(a[i - 1]);
        CaseForms(b[i - 1]);
        assert IsLetter(a[i - 1]) <==> IsLetter(b[i - 1]);
      }
      assert IsLetter(a[i]) <==> IsLetter(b[i]);
    }
  }
}
