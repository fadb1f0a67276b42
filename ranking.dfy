/**
  The ranking step:
    sorted(list(enumerate(row)), key=lambda x: x[1], reverse=True)[1:11]
  Each score of the matched movie's similarity row is paired with its column
  index, the pairs are sorted by score, highest first, with Python's stable
  sort (so equal scores keep ascending index order even with `reverse=True`),
  the first pair is dropped and the next ten are kept.
*/
module Ranking {

  /** One `(index, score)` pair of `enumerate(row)`. */
  datatype Scored = Scored(index: nat, score: real)

  /** How many recommendations the slice `[1:11]` keeps at most. */
  const TopK: nat := 10

  function Min(a: int, b: int): int {
    if a <= b then a else b
  }

  /** `enumerate(row)`: each score paired with its column index. */
  function Enumerate(row: seq<real>): (ps: seq<Scored>)
    ensures |ps| == |row|
    ensures forall j :: 0 <= j < |row| ==> ps[j] == Scored(j, row[j])
    ensures forall p :: p in ps ==> p.index < |row| && p.score == row[p.index]
  {
    seq(|row|, j requires 0 <= j < |row| => Scored(j, row[j]))
  }

  /** `a` is placed before `b` by the stable descending sort of an enumeration. */
  predicate RankBefore(a: Scored, b: Scored) {
    a.score > b.score || (a.score == b.score && a.index < b.index)
  }

  /** Scores never increase along `s`. */
  predicate NonIncreasing(s: seq<Scored>) {
    forall i, j :: 0 <= i < j < |s| ==> s[i].score >= s[j].score
  }

  /** Non-increasing scores, and equal scores in ascending index order. */
  predicate Ranked(s: seq<Scored>) {
    forall i, j :: 0 <= i < j < |s| ==> RankBefore(s[i], s[j])
  }

  /** Indices strictly increase along `s`, as they do along an enumeration. */
  predicate IncreasingIndices(s: seq<Scored>) {
    forall i, j :: 0 <= i < j < |s| ==> s[i].index < s[j].index
  }

  /**
    Inserts `x` into a sequence sorted by descending score, in front of the
    first element whose score is not greater, so that `x` precedes the
    elements that tie with it.
  */
  function InsertDesc(x: Scored, s: seq<Scored>): (r: seq<Scored>)
    ensures |r| == |s| + 1
    ensures multiset(r) == multiset(s) + multiset{x}
    ensures forall p :: p in r ==> p == x || p in s
  {
    if s == [] || s[0].score <= x.score then
      [x] + s
    else
      assert s == [s[0]] + s[1..];
      [s[0]] + InsertDesc(x, s[1..])
  }

  lemma {:induction false} InsertDescNonIncreasing(x: Scored, s: seq<Scored>)
    requires NonIncreasing(s)
    ensures NonIncreasing(InsertDesc(x, s))
  {
    if !(s == [] || s[0].score <= x.score) {
      InsertDescNonIncreasing(x, s[1..]);
      var r := InsertDesc(x, s);
      forall k | 1 <= k < |r|
        ensures r[0].score >= r[k].score
      {
        assert r[k] in InsertDesc(x, s[1..]);
      }
    }
  }

  lemma {:induction false} InsertDescRanked(x: Scored, s: seq<Scored>)
    requires Ranked(s)
    requires forall p :: p in s ==> x.index < p.index
    ensures Ranked(InsertDesc(x, s))
  {
    if !(s == [] || s[0].score <= x.score) {
      InsertDescRanked(x, s[1..]);
      var r := InsertDesc(x, s);
      forall k | 1 <= k < |r|
        ensures RankBefore(r[0], r[k])
      {
        assert r[k] in InsertDesc(x, s[1..]);
      }
    } else if s != [] {
      var r := InsertDesc(x, s);
      forall k | 1 <= k < |r|
        ensures RankBefore(r[0], r[k])
      {
        assert s[k - 1] in s;
        assert RankBefore(x, s[0]);
      }
    }
  }

  /**
    Python's `sorted(ps, key=score, reverse=True)`: a permutation of `ps`
    with non-increasing scores, which keeps equal scores in their original
    order.
  */
  function SortDesc(ps: seq<Scored>): (r: seq<Scored>)
    ensures |r| == |ps|
    ensures multiset(r) == multiset(ps)
    ensures NonIncreasing(r)
  {
    if ps == [] then []
    else
      assert ps == [ps[0]] + ps[1..];
      InsertDescNonIncreasing(ps[0], SortDesc(ps[1..]));
      InsertDesc(ps[0], SortDesc(ps[1..]))
  }

  /**
    Stability: sorting pairs whose indices increase (an enumeration) puts
    equal scores in ascending index order.
  */
  lemma {:induction false} SortDescStable(ps: seq<Scored>)
    requires IncreasingIndices(ps)
    ensures Ranked(SortDesc(ps))
  {
    if ps != [] {
      var rest := SortDesc(ps[1..]);
      SortDescStable(ps[1..]);
      forall p | p in rest
        ensures ps[0].index < p.index
      {
        assert p in multiset(ps[1..]);
      }
      InsertDescRanked(ps[0], rest);
    }
  }

  /** Two `Ranked` permutations of the same pairs start with the same pair. */
  lemma RankedHeadsAgree(a: seq<Scored>, b: seq<Scored>)
    requires Ranked(a) && Ranked(b)
    requires a != [] && b != []
    requires multiset(a) == multiset(b)
    ensures a[0] == b[0]
  {
    assert a[0] in multiset(b);
    assert b[0] in multiset(a);
    if a[0] != b[0] {
      // each would have to rank before the other
      assert false;
    }
  }

  /** Removing equal first elements from two permutations of each other leaves permutations. */
  lemma TailsArePermutations(a: seq<Scored>, b: seq<Scored>)
    requires a != [] && b != [] && a[0] == b[0]
    requires multiset(a) == multiset(b)
    ensures multiset(a[1..]) == multiset(b[1..])
  {
    assert a == [a[0]] + a[1..] && b == [b[0]] + b[1..];
    assert multiset(a[1..]) == multiset(a) - multiset{a[0]};
    assert multiset(b[1..]) == multiset(b) - multiset{b[0]};
  }

  /** Two `Ranked` permutations of the same pairs are the same sequence. */
  lemma {:induction false} RankedPermutationUnique(a: seq<Scored>, b: seq<Scored>)
    requires Ranked(a) && Ranked(b)
    requires multiset(a) == multiset(b)
    ensures a == b
  {
    if a != [] {
      assert |b| == |a| by {
        assert |multiset(a)| == |multiset(b)|;
      }
      RankedHeadsAgree(a, b);
      TailsArePermutations(a, b);
      assert Ranked(a[1..]) && Ranked(b[1..]);
      RankedPermutationUnique(a[1..], b[1..]);
      assert a == [a[0]] + a[1..] && b == [b[0]] + b[1..];
    }
  }

  /**
    The stable descending sort of an enumeration is the one permutation of it
    that is `Ranked`: an independent definition of the ranking order.
  */
  lemma SortDescIsUniqueRanking(ps: seq<Scored>, r: seq<Scored>)
    requires IncreasingIndices(ps)
    requires Ranked(r) && multiset(r) == multiset(ps)
    ensures r == SortDesc(ps)
  {
    SortDescStable(ps);
    RankedPermutationUnique(r, SortDesc(ps));
  }

  /** Python's slice `s[1:11]`: drops the first element and keeps the next `TopK`. */
  function AfterFirst(s: seq<Scored>): (r: seq<Scored>)
    ensures |r| == if |s| == 0 then 0 else Min(TopK, |s| - 1)
    ensures forall k :: 0 <= k < |r| ==> r[k] == s[k + 1]
  {
    if |s| <= 1 then [] else s[1..Min(TopK + 1, |s|)]
  }

  /** The whole row in ranking order (the sorted list before slicing). */
  function SortedRow(row: seq<real>): (r: seq<Scored>)
    ensures |r| == |row|
    ensures Ranked(r)
    ensures forall p :: p in r ==> p.index < |row| && p.score == row[p.index]
    ensures forall j :: 0 <= j < |row| ==> Scored(j, row[j]) in r
  {
    var ps := Enumerate(row);
    var r := SortDesc(ps);
    SortDescStable(ps);
    forall p | p in r
      ensures p in ps
    {
      assert p in multiset(ps);
    }
    forall j | 0 <= j < |row|
      ensures Scored(j, row[j]) in r
    {
      assert ps[j] in multiset(r);
    }
    r
  }

  /**
    The recommendations drawn from a similarity row: `min(10, N - 1)` pairs
    `(j, row[j])` with distinct in-range indices, in descending score and,
    among equal scores, ascending index.
  */
  function Rank(row: seq<real>): (picks: seq<Scored>)
    ensures |picks| == if |row| == 0 then 0 else Min(TopK, |row| - 1)
    ensures Ranked(picks)
    ensures forall k :: 0 <= k < |picks| ==> picks[k].index < |row| && picks[k].score == row[picks[k].index]
    ensures forall k, l :: 0 <= k < l < |picks| ==> picks[k].index != picks[l].index
  {
    var sorted := SortedRow(row);
    var picks := AfterFirst(sorted);
    assert forall k :: 0 <= k < |picks| ==> picks[k] in sorted;
    picks
  }

  /** The index of the pair that sorts first, which the slice drops. */
  function Dropped(row: seq<real>): (d: nat)
    requires |row| > 0
    ensures d < |row| && SortedRow(row)[0] == Scored(d, row[d])
  {
    SortedRow(row)[0].index
  }

  /**
    The dropped index is the first position of the row's maximum: no score
    exceeds it, every earlier score is strictly smaller, and it is never
    among the recommendations.
  */
  lemma DroppedIsFirstMaximum(row: seq<real>)
    requires |row| > 0
    ensures Dropped(row) < |row|
    ensures forall j :: 0 <= j < |row| ==> row[j] <= row[Dropped(row)]
    ensures forall j :: 0 <= j < Dropped(row) ==> row[j] < row[Dropped(row)]
    ensures forall p :: p in Rank(row) ==> p.index != Dropped(row)
  {
    var sorted := SortedRow(row);
    var d := Dropped(row);
    assert sorted[0] in sorted;
    forall j | 0 <= j < |row| && j != d
      ensures RankBefore(sorted[0], Scored(j, row[j]))
    {
      var q :| 0 <= q < |sorted| && sorted[q] == Scored(j, row[j]);
      assert q != 0;
    }
    forall p | p in Rank(row)
      ensures p.index != d
    {
      var k :| 0 <= k < |Rank(row)| && Rank(row)[k] == p;
      assert p == sorted[k + 1];
      assert RankBefore(sorted[0], sorted[k + 1]);
    }
  }

  /**
    Every recommended score is at least every score that was neither
    recommended nor dropped: the slice keeps the best of the rest.
  */
  lemma RankKeepsBest(row: seq<real>, j: nat, k: nat)
    requires j < |row| && j != Dropped(row)
    requires forall p :: p in Rank(row) ==> p.index != j
    requires k < |Rank(row)|
    ensures row[j] <= Rank(row)[k].score
  {
    var sorted := SortedRow(row);
    var picks := Rank(row);
    assert picks == AfterFirst(sorted);
    var q :| 0 <= q < |sorted| && sorted[q] == Scored(j, row[j]);
    assert q != 0;
    if q <= |picks| {
      // sorted[q] would be picks[q - 1], a recommended pair with index j
      assert false;
    }
    assert picks[k] == sorted[k + 1];
    assert RankBefore(sorted[k + 1], sorted[q]);
  }

  /**
    A pair is recommended exactly when its position in the sorted row is one
    of 1..10, the positions the slice `[1:11]` keeps.
  */
  lemma KeptIffSlicePosition(row: seq<real>, m: nat, q: nat)
    requires m < |row| && q < |row|
    requires SortedRow(row)[q] == Scored(m, row[m])
    ensures Scored(m, row[m]) in Rank(row) <==> 1 <= q <= TopK
  {
    var sorted := SortedRow(row);
    var picks := Rank(row);
    assert picks == AfterFirst(sorted);
    if 1 <= q <= TopK {
      assert picks[q - 1] == sorted[q];
    } else if Scored(m, row[m]) in picks {
      // the pair would sit at two positions of a Ranked sequence
      assert false;
    }
  }

  /**
    In a catalogue of at most 11 movies every pair but the first is kept, so
    a movie is missing from its own recommendations exactly when it is the
    pair that sorts first.
  */
  lemma SelfExcludedIffDropped(row: seq<real>, m: nat)
    requires m < |row| <= TopK + 1
    ensures Scored(m, row[m]) in Rank(row) <==> m != Dropped(row)
  {
    DroppedIsFirstMaximum(row);
    var sorted := SortedRow(row);
    var q :| 0 <= q < |sorted| && sorted[q] == Scored(m, row[m]);
    if m != Dropped(row) {
      assert q != 0;
      assert Rank(row)[q - 1] == sorted[q];
    }
  }

  /**
    A row of three strictly decreasing scores is already in ranking order:
    the first is dropped and the other two are recommended in order.
  */
  lemma RankOfThreeDecreasing(row: seq<real>)
    requires |row| == 3 && row[0] > row[1] > row[2]
    ensures Rank(row) == [Scored(1, row[1]), Scored(2, row[2])]
  {
    var ps := Enumerate(row);
    assert Ranked(ps);
    SortDescIsUniqueRanking(ps, ps);
  }

  /**
    A movie whose self-score is strictly greater than every other score in
    its row sorts first and is therefore left out of its own recommendations.
  */
  lemma SelfExcludedWhenStrictMaximum(row: seq<real>, m: nat)
    requires m < |row|
    requires forall j :: 0 <= j < |row| && j != m ==> row[j] < row[m]
    ensures Dropped(row) == m
    ensures forall p :: p in Rank(row) ==> p.index != m
  {
    DroppedIsFirstMaximum(row);
  }

  /**
    When an earlier index scores at least as high as the movie itself, the
    movie is not the first position of the row's maximum, so it is not the
    pair that is dropped.
  */
  lemma SelfKeptOnEarlierTie(row: seq<real>, m: nat, e: nat)
    requires e < m < |row|
    requires row[e] >= row[m]
    ensures Dropped(row) != m
  {
    DroppedIsFirstMaximum(row);
  }

  /**
    With the movie's self-score at the top of its row, tied by exactly one
    earlier index, the earlier index is dropped and the movie itself is the
    first recommendation.
  */
  lemma SelfRecommendedOnEarlierTie(row: seq<real>, m: nat, e: nat)
    requires e < m < |row|
    requires row[e] == row[m]
    requires forall j :: 0 <= j < |row| && j != e && j != m ==> row[j] < row[m]
    ensures Dropped(row) == e
    ensures Rank(row)[0] == Scored(m, row[m])
  {
    DroppedIsFirstMaximum(row);
    var sorted := SortedRow(row);
    var q :| 0 <= q < |sorted| && sorted[q] == Scored(m, row[m]);
    assert q != 0;
    assert Rank(row)[0] == sorted[1];
  }
}
