# Movie recommender: the "similar movies" query

This project models the recommendation logic of a small Streamlit movie
recommender. The user types a movie name and presses "Recommend". The
program then:

1. title-cases the name (`str.title()`);
2. shows "Please enter a movie name." if the result is empty;
3. looks for the one closest title with `difflib.get_close_matches(name, titles, n=1, cutoff=0.6)`,
   and shows "No close match found! Try another movie." if there is none;
4. takes the first catalogue position holding that title;
5. pairs every score in that position's row of the precomputed similarity
   matrix with its column index, sorts the pairs by score (highest first,
   stable), drops the first pair and keeps the next ten;
6. prints a heading naming the match and the kept movies as a numbered
   list of "title (genres)" lines.

`app.py:19-41` and the recommender tab `combine.py:77-95` run the same
pipeline line for line. Both are modelled by the same Dafny members, and
the table below cites whichever file states the property more directly.

Modules:

- `TitleCasing` (`title_casing.dfy`): ASCII `str.title()` and its fixed points.
- `FuzzyMatch` (`fuzzy_match.dfy`): the close-match choice. The similarity
  ratio is a parameter `ratio(candidate, name)`. The cutoff is 0.6. A tie on
  the score goes to the title that is greatest in Python's string order,
  because difflib returns the largest `(score, title)` pair.
- `MovieCatalog` (`movie_catalog.dfy`): titles, genres and the similarity
  matrix, plus the first-position lookup.
- `Ranking` (`ranking.dfy`): `enumerate`, the stable descending sort, the
  `[1:11]` slice, and what is dropped and what is kept.
- `Recommender` (`recommender.dfy`): the whole query as one function
  `Recommend`, the page it produces (`Display`), and a worked example.
- `Wrappers` (`wrappers.dfy`): the `Option` type.

Preconditions of the model (the predicate `Catalog.Valid`, required by
`Recommend`, `Display` and `NumberLines`; it models the shape of the data
unpacked at `app.py:10-12`): one title and one genres string per movie, and
an N x N similarity matrix. The movie table's index
labels are assumed to be its positions 0..N-1. `app.py:28` reads a label,
while `app.py:31` and `app.py:37` index by position, so the code is only
right under that assumption.

Three behaviours of the code that a reader might not expect, all kept in the model:

- A name made only of spaces is not empty. `str.title()` keeps the spaces,
  so the name goes on to matching (`BlankQueryIsMatched`).
- The slice drops whichever pair sorts first, not the matched movie itself.
  The matched movie is left out when its self-score is the strict maximum
  of its row (`SelfExcludedWhenStrictMaximum`). If an earlier index scores
  at least as high, the matched movie is not the one dropped
  (`SelfKeptOnEarlierTie`): the first position of the row's maximum is
  dropped instead (`DroppedIsFirstMaximum`). With exactly one earlier tie
  at the top, the matched movie becomes its own first recommendation
  (`SelfRecommendedOnEarlierTie`). In general a pair is recommended exactly
  when its position in the sorted row is one of 1..10
  (`KeptIffSlicePosition`). So with eleven or more pairs sorted ahead of it,
  the matched movie is missing although it was not dropped. In a catalogue
  of at most 11 movies, it is missing exactly when it sorts first
  (`SelfExcludedIffDropped`).
- There is no "index out of range" outcome. Under `Catalog.Valid` the
  looked-up position always indexes the matrix.

## Model

| member | source | states |
|---|---|---|
| `TitleCasing.Upper` | app.py:19 | ASCII upper-casing of one character: letters become upper case, everything else is unchanged |
| `TitleCasing.Lower` | app.py:19 | ASCII lower-casing of one character: letters become lower case, everything else is unchanged |
| `TitleCasing.CaseForms` | app.py:19 | changing a character's case twice is the same as changing it once to the final case |
| `TitleCasing.TitleFrom` | app.py:19 | the character pass of `str.title()`: each character is lower-cased when the character before it is a letter and upper-cased otherwise; the length is kept |
| `TitleCasing.TitleCase` | app.py:19 | `str.title()` keeps the length and which positions are letters; it changes only the case of letters; the result is title-cased, with each word's first letter upper case and its other letters lower case |
| `TitleCasing.TitleCaseFixedPoints` | app.py:19 | title-casing leaves a string unchanged exactly when the string is already title-cased |
| `TitleCasing.TitleCaseIgnoresCase` | app.py:19 | two strings that differ only in the case of their letters title-case to the same string |
| `TitleCasing.TitleCaseIdempotent` | app.py:19 | title-casing twice equals title-casing once |
| `FuzzyMatch.LexLessIrreflexive` | app.py:25 | no title is smaller than itself in Python's string order (`LexLess`, the `<` that difflib's (score, title) tie-break uses) |
| `FuzzyMatch.LexLessTransitive` | app.py:25 | Python's string order is transitive |
| `FuzzyMatch.LexLessTotal` | app.py:25 | any two distinct titles are ordered one way or the other by Python's string order |
| `FuzzyMatch.BeatsTransitive` | app.py:25 | the (score, title) comparison that picks difflib's single result (`Beats`) is transitive |
| `FuzzyMatch.BeatsTotal` | app.py:25 | of two distinct titles, one beats the other on (score, title) |
| `FuzzyMatch.BestMatch` | app.py:25-27 | no match exactly when every title scores below 0.6; a match is a catalogue title scoring at least 0.6 that no title beats on (score, title) |
| `FuzzyMatch.ExactTitleIsMatched` | combine.py:81 | for a ratio that is 1 exactly on equal strings, a name equal to a catalogue title is matched to that title |
| `MovieCatalog.FirstIndexOf` | app.py:28 | the position found holds the title and no earlier position does, so duplicate titles resolve to their first position |
| `Ranking.Enumerate` | app.py:31 | `enumerate(row)`: position j holds the pair (j, row[j]), and every pair has an in-range index and that index's score |
| `Ranking.InsertDesc` | app.py:32 | one insertion step of the sort adds exactly the new pair to the multiset of pairs |
| `Ranking.InsertDescNonIncreasing` | app.py:32 | inserting into a list sorted by descending score keeps it sorted |
| `Ranking.InsertDescRanked` | app.py:32 | inserting a pair whose index is below all others puts it ahead of every pair with the same score |
| `Ranking.SortDesc` | app.py:32 | `sorted(..., reverse=True)` by score gives a permutation of its input with non-increasing scores |
| `Ranking.SortDescStable` | app.py:32 | the sort is stable: for an enumeration, equal scores stay in ascending index order |
| `Ranking.RankedPermutationUnique` | combine.py:86-87 | two permutations of the same pairs that are both in (score descending, index ascending) order are equal |
| `Ranking.SortDescIsUniqueRanking` | combine.py:86-87 | the sorted enumeration is the only permutation of it in (score descending, index ascending) order |
| `Ranking.AfterFirst` | app.py:32 | the slice `[1:11]` has length min(10, n-1), or 0 for an empty list, and its k-th element is the input's (k+1)-th |
| `Ranking.SortedRow` | app.py:31-32 | the sorted enumeration of a row contains every pair (j, row[j]) and nothing else, in ranking order |
| `Ranking.Rank` | app.py:31-32 | the recommendations number min(10, N-1); they are in ranking order and have distinct in-range indices, each with that index's score |
| `Ranking.Dropped` | app.py:32 | the index the slice discards is the index of the first pair of the sorted list, and is a position of the row |
| `Ranking.RankedHeadsAgree` | combine.py:86-87 | two permutations of the same pairs in (score descending, index ascending) order begin with the same pair |
| `Ranking.TailsArePermutations` | combine.py:86-87 | after removing the same first pair, two permutations of each other remain permutations of each other |
| `Ranking.DroppedIsFirstMaximum` | app.py:32 | the dropped pair is the first position of the row's maximum, and its index is never recommended |
| `Ranking.RankKeepsBest` | app.py:32 | every recommended score is at least every score that was neither recommended nor dropped |
| `Ranking.KeptIffSlicePosition` | app.py:32 | a pair is among the recommendations exactly when its position in the sorted row is one of 1..10, the positions `[1:11]` keeps |
| `Ranking.SelfExcludedIffDropped` | combine.py:87 | in a catalogue of at most 11 movies, a movie is missing from its own recommendations exactly when it is the pair that sorts first |
| `Ranking.RankOfThreeDecreasing` | app.py:31-32 | a row of three strictly decreasing scores drops position 0 and recommends positions 1 and 2 in that order |
| `Ranking.SelfExcludedWhenStrictMaximum` | combine.py:87 | when the movie's self-score strictly exceeds every other score in its row, the movie is the one dropped and is not recommended |
| `Ranking.SelfKeptOnEarlierTie` | combine.py:87 | when an earlier index scores at least as high as the movie's self-score, the movie is not the one dropped |
| `Ranking.SelfRecommendedOnEarlierTie` | combine.py:87 | when exactly one earlier index ties the movie's top self-score, that index is dropped and the movie is its own first recommendation |
| `Recommender.Recommend` | app.py:19-41 | an empty name exactly when the typed text is empty; no close match exactly when the text is non-empty and every title scores below 0.6 against the title-cased text; otherwise the best-scoring title, its first position, and the ranked neighbours from that position's row |
| `Recommender.NormalisedQueryGivesSameResponse` | app.py:19 | typing the title-cased form of what was typed gives the same response as the typed text |
| `Recommender.QueryCaseIsIgnored` | app.py:19 | two names that differ only in the case of their letters get the same response |
| `Recommender.BlankQueryIsMatched` | combine.py:80 | a name of spaces only is not rejected as empty; it is matched unchanged against the titles |
| `Recommender.ExactQueryResolvesToFirstIndex` | combine.py:81-84 | a name that title-cases to a catalogue title resolves to that title's first position |
| `Recommender.MatchedMovieOmittedWhenStrictlyMostSimilar` | app.py:28-32 | when the matched movie's self-score is strictly the highest in its row, the matched movie is not among its own recommendations |
| `Recommender.NumberLines` | combine.py:90-91 | the k-th line carries number first+k and the title and genres of the k-th recommendation's index |
| `Recommender.Display` | combine.py:89-95 | the two error responses show their two messages. A match shows the heading naming it, then one line per recommendation, numbered 1..k, with the title and genres of the index the score came from |
| `Recommender.ToyStoryName` | app.py:19 | "toy story" title-cases to "Toy Story" |
| `Recommender.ToyStoryRanking` | app.py:31-32 | for the row [1.0, 0.9, 0.1], the recommendations are (1, 0.9) and then (2, 0.1) |
| `Recommender.ToyStoryScenario` | app.py:19-32 | in a three-movie catalogue, "toy story" resolves to position 0 and recommends positions 1 and 2 |
| `Recommender.ToyStoryScreen` | app.py:35-37 | the page for that example is the heading "Movies similar to 'Toy Story':" followed by two numbered lines |

## Left out

- Streamlit: page setup, tabs, titles, the text box, the button and the rendering of `st.write` and `st.error`. The model starts once the button is pressed. It returns the page content as a `Screen` value.
- The f-string formatting of each list line. A line is the record (number, title, genres) that the f-string prints.
- Loading `model.pkl` with `pickle`. The catalogue and the similarity matrix are parameters, constrained by `Catalog.Valid`.
- The inside of `SequenceMatcher.ratio` (the Ratcliff/Obershelp matching blocks and the autojunk heuristic). It is a parameter. The `real_quick_ratio` and `quick_ratio` pre-filters only bound `ratio` from above, so they do not change which titles pass.
- `FuzzyMatch.ExactTitleIsMatched`: assumes of the ratio what difflib guarantees: it lies in [0, 1] and equals 1 exactly on equal strings.
- Floating point. Scores are `real`, and the cutoff is exactly 0.6. Only comparisons are made, so no rounding is modelled.
- `TitleCasing.TitleCase`: handles ASCII only. Python's `str.title()` also changes the case of non-ASCII letters and can change the length (for example "ß"). The model treats every non-ASCII character as a non-letter and leaves it unchanged.
- `MovieCatalog.FirstIndexOf`: requires the title to be present. `.index[0]` would raise `IndexError` on a missing title. The pipeline never reaches that case, because the title comes from the catalogue.
- The data explorer (`combine.py:16-61` and `eda_streamlit.py`). It only wires pandas and Altair together.
- The computation of the similarity matrix. It is not part of this repository.
- `Ranking.SelfExcludedIffDropped`: is stated only for catalogues of at most 11 movies. In a larger catalogue a movie with eleven or more pairs sorted ahead of it is also missing; that case is covered by `KeptIffSlicePosition`, which characterises membership by sorted position for every catalogue size.
