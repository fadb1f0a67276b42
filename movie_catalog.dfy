/**
  The catalogue the recommender reads: the movies' titles and genres in
  catalogue order, and the precomputed similarity matrix whose row and
  column `i` belong to movie `i`.
*/
module MovieCatalog {

  datatype Catalog = Catalog(titles: seq<string>, genres: seq<string>, similarity: seq<seq<real>>)
  {
    /**
      One title and one genres string per movie, and an N x N matrix. The
      movie table's index labels are taken to be the positions 0..N-1, so a
      label found by a title lookup can index the matrix and the table.
    */
    predicate Valid() {
      && |genres| == |titles|
      && |similarity| == |titles|
      && forall i :: 0 <= i < |similarity| ==> |similarity[i]| == |titles|
    }
  }

  /** The first catalogue position holding `title` (`df[df['title'] == title].index[0]`). */
  function FirstIndexOf(titles: seq<string>, title: string): (i: nat)
    requires title in titles
    ensures i < |titles| && titles[i] == title
    ensures forall k :: 0 <= k < i ==> titles[k] != title
  {
    if titles[0] == title then 0 else 1 + FirstIndexOf(titles[1..], title)
  }
}
