/**
  The "recommend similar movies" query, as run when the Recommend button is
  pressed: title-case the typed name, reject the empty name, find the one
  close match among the titles, look up that title's first catalogue
  position, and rank the other movies by that position's similarity row.
  The two error messages and the numbered list the page shows are produced
  by `Display`.
*/
module Recommender {
  import opened Wrappers
  import opened TitleCasing
  import opened FuzzyMatch
  import opened MovieCatalog
  import opened Ranking

  /** What one query produces, before it is rendered. */
  datatype Response =
    | EmptyName
    | NoCloseMatch
    | Similar(closest: string, movieIndex: nat, picks: seq<Scored>)

  /**
    The recommendation pipeline for the raw text `query` typed by the user.
    `ratio(candidate, name)` is difflib's similarity ratio.
  */
  function Recommend(query: string, cat: Catalog, ratio: (string, string) -> real): (r: Response)
    requires cat.Valid()
    ensures r.EmptyName? <==> query == []
    ensures r.NoCloseMatch? <==>
      query != [] && forall t :: t in cat.titles ==> ratio(t, TitleCase(query)) < Cutoff
    ensures r.Similar? ==>
      && r.closest in cat.titles
      && Cutoff <= ratio(r.closest, TitleCase(query))
      && (forall t :: t in cat.titles ==> ratio(t, TitleCase(query)) <= ratio(r.closest, TitleCase(query)))
      && (forall t :: t in cat.titles ==> !Beats(ratio, TitleCase(query), t, r.closest))
    ensures r.Similar? ==>
      && r.movieIndex < |cat.titles|
      && cat.titles[r.movieIndex] == r.closest
      && (forall k :: 0 <= k < r.movieIndex ==> cat.titles[k] != r.closest)
    ensures r.Similar? ==>
      && r.picks == Rank(cat.similarity[r.movieIndex])
      && |r.picks| == Min(TopK, |cat.titles| - 1)
      && Ranked(r.picks)
      && forall k :: 0 <= k < |r.picks| ==>
           r.picks[k].index < |cat.titles| && r.picks[k].score == cat.similarity[r.movieIndex][r.picks[k].index]
  {
    var name := TitleCase(query);
    if name == [] then
      EmptyName
    else
      match BestMatch(name, cat.titles, ratio)
      case None => NoCloseMatch
      case Some(closest) =>
        var i := FirstIndexOf(cat.titles, closest);
        Similar(closest, i, Rank(cat.similarity[i]))
  }

  /** Typing the title-cased form of what was typed gives the same response as the typed text. */
  lemma NormalisedQueryGivesSameResponse(query: string, cat: Catalog, ratio: (string, string) -> real)
    requires cat.Valid()
    ensures Recommend(TitleCase(query), cat, ratio) == Recommend(query, cat, ratio)
  {
    TitleCaseIdempotent(query);
  }

  /**
    Two names that differ only in the case of their letters get the same
    response: matching sees only the title-cased name.
  */
  lemma QueryCaseIsIgnored(a: string, b: string, cat: Catalog, ratio: (string, string) -> real)
    requires cat.Valid()
    requires |a| == |b| && forall i :: 0 <= i < |a| ==> Lower(a[i]) == Lower(b[i])
    ensures Recommend(a, cat, ratio) == Recommend(b, cat, ratio)
  {
    TitleCaseIgnoresCase(a, b);
  }

  /**
    A name made only of spaces is not treated as empty: it is matched against
    the titles unchanged.
  */
  lemma BlankQueryIsMatched(query: string, cat: Catalog, ratio: (string, string) -> real)
    requires cat.Valid()
    requires query != [] && forall i :: 0 <= i < |query| ==> query[i] == ' '
    ensures Recommend(query, cat, ratio) != EmptyName
    ensures Recommend(query, cat, ratio).NoCloseMatch? <==>
      forall t :: t in cat.titles ==> ratio(t, query) < Cutoff
  {
    TitleCaseFixedPoints(query);
  }

  /**
    A name that title-cases to a catalogue title is matched to that title,
    and the title resolves to its first catalogue position even when it is
    duplicated.
  */
  lemma ExactQueryResolvesToFirstIndex(query: string, cat: Catalog, ratio: (string, string) -> real)
    requires cat.Valid() && ExactRatio(ratio)
    requires query != [] && TitleCase(query) in cat.titles
    ensures var i := FirstIndexOf(cat.titles, TitleCase(query));
      Recommend(query, cat, ratio) == Similar(TitleCase(query), i, Rank(cat.similarity[i]))
  {
    ExactTitleIsMatched(TitleCase(query), cat.titles, ratio);
  }

  /**
    The matched movie is missing from its own recommendations whenever its
    self-score is strictly the highest in its row.
  */
  lemma MatchedMovieOmittedWhenStrictlyMostSimilar(query: string, cat: Catalog, ratio: (string, string) -> real)
    requires cat.Valid()
    requires Recommend(query, cat, ratio).Similar?
    requires var m := Recommend(query, cat, ratio).movieIndex;
      forall j :: 0 <= j < |cat.titles| && j != m ==> cat.similarity[m][j] < cat.similarity[m][m]
    ensures var r := Recommend(query, cat, ratio);
      forall k :: 0 <= k < |r.picks| ==> r.picks[k].index != r.movieIndex
  {
    var r := Recommend(query, cat, ratio);
    SelfExcludedWhenStrictMaximum(cat.similarity[r.movieIndex], r.movieIndex);
    assert forall k :: 0 <= k < |r.picks| ==> r.picks[k] in r.picks;
  }

  /** One line of the numbered list: `"{number}. {title} ({genres})"`. */
  datatype Line = Line(number: nat, title: string, genres: string)

  /** What the page shows: an error message, or a heading over the numbered list. */
  datatype Screen = ErrorMessage(text: string) | Listing(heading: string, lines: seq<Line>)

  const EmptyNameMessage: string := "Please enter a movie name."
  const NoMatchMessage: string := "No close match found! Try another movie."

  /** The list lines for `picks`, numbered from `first`, each showing its movie's title and genres. */
  function NumberLines(picks: seq<Scored>, cat: Catalog, first: nat): (lines: seq<Line>)
    requires cat.Valid()
    requires forall k :: 0 <= k < |picks| ==> picks[k].index < |cat.titles|
    ensures |lines| == |picks|
    ensures forall k :: 0 <= k < |picks| ==>
      lines[k] == Line(first + k, cat.titles[picks[k].index], cat.genres[picks[k].index])
  {
    if picks == [] then []
    else [Line(first, cat.titles[picks[0].index], cat.genres[picks[0].index])] + NumberLines(picks[1..], cat, first + 1)
  }

  /**
    Rendering of a response: the two error messages, or the heading naming
    the close match followed by lines numbered 1..k in ranking order, each
    with the title and genres of the same index as its score.
  */
  function Display(resp: Response, cat: Catalog): (screen: Screen)
    requires cat.Valid()
    requires resp.Similar? ==> forall k :: 0 <= k < |resp.picks| ==> resp.picks[k].index < |cat.titles|
    ensures screen == ErrorMessage(EmptyNameMessage) <==> resp.EmptyName?
    ensures screen == ErrorMessage(NoMatchMessage) <==> resp.NoCloseMatch?
    ensures resp.Similar? ==>
      && screen.Listing?
      && screen.heading == "Movies similar to '" + resp.closest + "':"
      && |screen.lines| == |resp.picks|
      && forall k :: 0 <= k < |resp.picks| ==>
           && screen.lines[k].number == k + 1
           && screen.lines[k].title == cat.titles[resp.picks[k].index]
           && screen.lines[k].genres == cat.genres[resp.picks[k].index]
  {
    match resp
    case EmptyName => ErrorMessage(EmptyNameMessage)
    case NoCloseMatch => ErrorMessage(NoMatchMessage)
    case Similar(closest, _, picks) =>
      Listing("Movies similar to '" + closest + "':", NumberLines(picks, cat, 1))
  }

  /** The query of the worked example, title-cased. */
  lemma ToyStoryName()
    ensures TitleCase("toy story") == "Toy Story"
  {
    var r := TitleCase("toy story");
    assert IsLetter('t') && IsLetter('y') && !IsLetter(' ');
    assert StartsWord(r, 0) && StartsWord(r, 4);
  }

  /** The ranking of the worked example's row: the self-score sorts first and is dropped. */
  lemma ToyStoryRanking()
    ensures Rank([1.0, 0.9, 0.1]) == [Scored(1, 0.9), Scored(2, 0.1)]
  {
    RankOfThreeDecreasing([1.0, 0.9, 0.1]);
  }

  /** The worked example's catalogue. */
  function ToyStoryCatalog(): (cat: Catalog)
    ensures cat.Valid()
  {
    Catalog(["Toy Story", "Toy Story 2", "Heat"], ["Animation", "Animation", "Action"],
            [[1.0, 0.9, 0.1], [0.9, 1.0, 0.1], [0.1, 0.1, 1.0]])
  }

  /**
    A worked example: three movies, the query typed in lower case, and a
    first row whose self-score is the strict maximum. The query resolves to
    the first movie, which is dropped from its own list.
  */
  lemma ToyStoryScenario(ratio: (string, string) -> real)
    requires ExactRatio(ratio)
    ensures Recommend("toy story", ToyStoryCatalog(), ratio)
              == Similar("Toy Story", 0, [Scored(1, 0.9), Scored(2, 0.1)])
  {
    var cat := ToyStoryCatalog();
    ToyStoryName();
    ToyStoryRanking();
    ExactTitleIsMatched("Toy Story", cat.titles, ratio);
    assert FirstIndexOf(cat.titles, "Toy Story") == 0;
  }

  /** The worked example's page: a heading and two numbered lines. */
  lemma ToyStoryScreen()
    ensures Display(Similar("Toy Story", 0, [Scored(1, 0.9), Scored(2, 0.1)]), ToyStoryCatalog())
              == Listing("Movies similar to 'Toy Story':",
                         [Line(1, "Toy Story 2", "Animation"), Line(2, "Heat", "Action")])
  {
    var lines := NumberLines([Scored(1, 0.9), Scored(2, 0.1)], ToyStoryCatalog(), 1);
    assert lines == [Line(1, "Toy Story 2", "Animation"), Line(2, "Heat", "Action")];
  }
}
