/**
  The close-match step: `difflib.get_close_matches(name, titles, n=1, cutoff=0.6)`.

  difflib scores every candidate title against the query with
  `SequenceMatcher.ratio()` (the candidate as the first sequence, the query as
  the second), keeps the candidates scoring at least the cutoff, and returns
  the largest `(score, title)` pair. So a tie on the score goes to the title
  that is greatest in Python's string order. The ratio itself is a parameter.
*/
module FuzzyMatch {
  import opened Wrappers

  /** The fixed cutoff passed to `get_close_matches`. */
  const Cutoff: real := 0.6

  /** Python's `<` on strings: lexicographic by code point, a proper prefix being smaller. */
  predicate LexLess(a: string, b: string) {
    if a == [] then b != []
    else if b == [] then false
    else a[0] < b[0] || (a[0] == b[0] && LexLess(a[1..], b[1..]))
  }

  lemma {:induction false} LexLessIrreflexive(a: string)
    ensures !LexLess(a, a)
  {
    if a != [] {
      LexLessIrreflexive(a[1..]);
    }
  }

  lemma {:induction false} LexLessTransitive(a: string, b: string, c: string)
    requires LexLess(a, b) && LexLess(b, c)
    ensures LexLess(a, c)
  {
    if a != [] && a[0] == b[0] && b[0] == c[0] {
      LexLessTransitive(a[1..], b[1..], c[1..]);
    }
  }

  lemma {:induction false} LexLessTotal(a: string, b: string)
    ensures a == b || LexLess(a, b) || LexLess(b, a)
  {
    if a != [] && b != [] && a[0] == b[0] {
      LexLessTotal(a[1..], b[1..]);
      if a[1..] == b[1..] {
        assert a == [a[0]] + a[1..] && b == [b[0]] + b[1..];
      }
    }
  }

  /** Candidate `a` beats candidate `b` for `query`: its `(score, title)` pair is larger. */
  predicate Beats(ratio: (string, string) -> real, query: string, a: string, b: string) {
    ratio(a, query) > ratio(b, query) || (ratio(a, query) == ratio(b, query) && LexLess(b, a))
  }

  lemma BeatsTransitive(ratio: (string, string) -> real, query: string, a: string, b: string, c: string)
    requires Beats(ratio, query, a, b) && Beats(ratio, query, b, c)
    ensures Beats(ratio, query, a, c)
  {
    if ratio(a, query) == ratio(b, query) == ratio(c, query) {
      LexLessTransitive(c, b, a);
    }
  }

  lemma BeatsTotal(ratio: (string, string) -> real, query: string, a: string, b: string)
    ensures a == b || Beats(ratio, query, a, b) || Beats(ratio, query, b, a)
  {
    LexLessTotal(a, b);
  }

  /**
    The single close match of `query` among `titles`, if any: a title scoring
    at least the cutoff that no other title beats.
  */
  function BestMatch(query: string, titles: seq<string>, ratio: (string, string) -> real): (r: Option<string>)
    ensures r.None? <==> forall t :: t in titles ==> ratio(t, query) < Cutoff
    ensures r.Some? ==> r.value in titles && Cutoff <= ratio(r.value, query)
    ensures r.Some? ==> forall t :: t in titles ==> !Beats(ratio, query, t, r.value)
  {
    if titles == [] then None
    else
      var t := titles[0];
      var rest := BestMatch(query, titles[1..], ratio);
      if ratio(t, query) < Cutoff then
        rest
      else if rest.None? || !Beats(ratio, query, rest.value, t) then
        assert forall u :: u in titles[1..] ==> !Beats(ratio, query, u, t) by {
          forall u | u in titles[1..] && Beats(ratio, query, u, t)
            ensures false
          {
            BeatsTotal(ratio, query, rest.value, t);
            if rest.value != t {
              BeatsTransitive(ratio, query, u, t, rest.value);
            }
          }
        }
        LexLessIrreflexive(t);
        Some(t)
      else
        assert !Beats(ratio, query, t, rest.value) by {
          LexLessIrreflexive(rest.value);
          if Beats(ratio, query, t, rest.value) {
            BeatsTransitive(ratio, query, rest.value, t, rest.value);
          }
        }
        rest
  }

  /** difflib's ratio is a similarity in [0, 1] that reaches 1 exactly on equal strings. */
  ghost predicate ExactRatio(ratio: (string, string) -> real) {
    forall a, b :: 0.0 <= ratio(a, b) <= 1.0 && (ratio(a, b) == 1.0 <==> a == b)
  }

  /** A query spelled exactly like a catalogue title is matched to that title. */
  lemma ExactTitleIsMatched(query: string, titles: seq<string>, ratio: (string, string) -> real)
    requires ExactRatio(ratio)
    requires query in titles
    ensures BestMatch(query, titles, ratio) == Some(query)
  {
    assert ratio(query, query) == 1.0;
  }
}
