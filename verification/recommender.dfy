/**
 The recommendation engine: item-based collaborative filtering over a
 movies x movies similarity matrix whose rows follow the pivot table's row
 labels.  The matrix itself (cosine similarity of the rating vectors) is an
 input here; every property below holds for any square matrix of scores.
 */
module Recommender {
  import opened Seqs
  import opened Sorting
  import opened Text
  import opened InteractionFilter
  import opened RatingMatrix
  import opened Ranking

  /** What `get_recommendations` returns: a list of titles, or a message string. */
  datatype Recommendation = Titles(titles: seq<string>) | NotFound(message: string)

  /** `top_n` when the caller gives none. */
  const DEFAULT_TOP_N: int := 5

  /**
   The engine's state: the row labels (`movie_index`), without repetitions,
   and a square similarity matrix with one row and one column per label.
   */
  predicate ValidEngine(index: seq<string>, sim: seq<seq<real>>) {
    && Distinct(index)
    && |sim| == |index|
    && forall i :: 0 <= i < |sim| ==> |sim[i]| == |index|
  }

  /**
   The index the pipeline returns, paired with a similarity matrix with one
   row and one column per index entry, is a well-formed engine.
   */
  lemma PipelineBuildsEngine(rs: seq<Interaction>, movies: seq<Movie>, sim: seq<seq<real>>)
    requires |sim| == |BuildPipeline(rs, movies).1|
    requires forall i :: 0 <= i < |sim| ==> |sim[i]| == |BuildPipeline(rs, movies).1|
    ensures ValidEngine(BuildPipeline(rs, movies).1, sim)
  {
  }

  /** The message returned for a title that is not a row label. */
  function NotFoundMessage(name: string): string {
    "\U{274C} '" + name + "' was not found in the database.\n"
    + "Tip: Make sure the title matches exactly, including the year \U{2014} e.g. 'Toy Story (1995)'."
  }

  /**
   `movie_index.get_loc(name)` on an index without repeated labels, as the
   pivot's is: the position of the label `name`.
   */
  function IndexOf(index: seq<string>, name: string): (i: nat)
    requires name in index
    ensures i < |index| && index[i] == name && name !in index[..i]
  {
    if index[0] == name then 0
    else
      var i := IndexOf(index[1..], name);
      assert index[..i + 1] == [index[0]] + index[1..][..i];
      i + 1
  }

  /** In a label sequence without repetitions, the position of `index[i]` is `i`. */
  lemma IndexOfDistinct(index: seq<string>, i: nat)
    requires Distinct(index) && i < |index|
    ensures IndexOf(index, index[i]) == i
  {
    var j := IndexOf(index, index[i]);
  }

  /** How similar title `b` is to title `a`: the entry of `a`'s row in `b`'s column. */
  function Similarity(index: seq<string>, sim: seq<seq<real>>, a: string, b: string): real
    requires ValidEngine(index, sim) && a in index && b in index
  {
    sim[IndexOf(index, a)][IndexOf(index, b)]
  }

  /** `movie_index[ids].tolist()`: the labels at the given positions. */
  function TitlesAt(index: seq<string>, ids: seq<nat>): (ts: seq<string>)
    requires forall k :: 0 <= k < |ids| ==> ids[k] < |index|
    ensures |ts| == |ids|
    ensures forall k :: 0 <= k < |ids| ==> ts[k] == index[ids[k]]
  {
    seq(|ids|, k requires 0 <= k < |ids| => index[ids[k]])
  }

  /**
   `get_recommendations` as written: rank the row of the queried title by
   descending score and drop the first-ranked entry, assuming it is the
   queried title itself.  An unknown title yields the message.
   */
  function GetRecommendationsAsWritten(name: string, topN: int, index: seq<string>, sim: seq<seq<real>>): (r: Recommendation)
    requires ValidEngine(index, sim)
    ensures r.NotFound? <==> name !in index
    ensures r.NotFound? ==> r.message == NotFoundMessage(name)
    ensures r.Titles? ==> forall k :: 0 <= k < |r.titles| ==> r.titles[k] in index
  {
    if name !in index then NotFound(NotFoundMessage(name))
    else
      var q := IndexOf(index, name);
      var order := DescendingOrder(sim[q]);
      assert |order| >= 1 && order[0] < |index|;
      Titles(TitlesAt(index, SkipFirst(order, topN)))
  }

  /**
   `get_recommendations` as evidently intended: rank the row of the queried
   title by descending score and leave out the queried title itself, not
   whichever title happens to rank first.
   */
  function GetRecommendations(name: string, topN: int, index: seq<string>, sim: seq<seq<real>>): (r: Recommendation)
    requires ValidEngine(index, sim)
    ensures r.NotFound? <==> name !in index
    ensures r.NotFound? ==> r.message == NotFoundMessage(name)
    ensures r.Titles? ==> forall k :: 0 <= k < |r.titles| ==> r.titles[k] in index
  {
    if name !in index then NotFound(NotFoundMessage(name))
    else
      var q := IndexOf(index, name);
      var order := DescendingOrder(sim[q]);
      SkipQueryInRange(order, q, topN, |index|);
      Titles(TitlesAt(index, SkipQuery(order, q, topN)))
  }

  /** Titles at distinct positions of a label sequence without repetitions are distinct. */
  lemma TitlesAtDistinct(index: seq<string>, ids: seq<nat>)
    requires Distinct(index) && Distinct(ids)
    requires forall k :: 0 <= k < |ids| ==> ids[k] < |index|
    ensures Distinct(TitlesAt(index, ids))
  {
    var ts := TitlesAt(index, ids);
    forall a, b | 0 <= a < b < |ts| ensures ts[a] != ts[b] {
      assert ids[a] != ids[b];
    }
  }

  /**
   The corrected function for a known title: it never recommends the title
   itself, and for `top_n >= 0` it returns `min(top_n, N - 1)` distinct
   titles of the index, most similar first.
   */
  lemma RecommendationsSelect(name: string, topN: int, index: seq<string>, sim: seq<seq<real>>)
    requires ValidEngine(index, sim) && name in index
    ensures var r := GetRecommendations(name, topN, index, sim);
            && r.Titles?
            && name !in r.titles
            && (topN >= 0 ==> |r.titles| == Min(topN, |index| - 1))
            && Distinct(r.titles)
            && (forall k :: 0 <= k < |r.titles| ==> r.titles[k] in index)
            && (forall a, b :: 0 <= a < b < |r.titles| ==>
                  Similarity(index, sim, name, r.titles[a]) >= Similarity(index, sim, name, r.titles[b]))
  {
    var q := IndexOf(index, name);
    var ids := SkipQuery(DescendingOrder(sim[q]), q, topN);
    SkipQuerySelects(DescendingOrder(sim[q]), sim[q], q, topN);
    var ts := TitlesAt(index, ids);
    TitlesAtDistinct(index, ids);
    forall k | 0 <= k < |ts|
      ensures IndexOf(index, ts[k]) == ids[k] && ts[k] in index && ts[k] != name
    {
      IndexOfDistinct(index, ids[k]);
    }
  }

  /**
   The corrected function returns the most similar titles: no title other
   than the queried one that it leaves out is more similar than the last
   title it returns.
   */
  lemma RecommendationsAreMostSimilar(name: string, topN: int, index: seq<string>, sim: seq<seq<real>>)
    requires ValidEngine(index, sim) && name in index
    ensures var r := GetRecommendations(name, topN, index, sim);
            && r.Titles?
            && (forall t :: t in index && t != name && t !in r.titles && |r.titles| > 0 ==>
                  Similarity(index, sim, name, t) <= Similarity(index, sim, name, r.titles[|r.titles| - 1]))
  {
    var q := IndexOf(index, name);
    var ids := SkipQuery(DescendingOrder(sim[q]), q, topN);
    SkipQuerySelects(DescendingOrder(sim[q]), sim[q], q, topN);
    var ts := TitlesAt(index, ids);
    if |ts| > 0 {
      IndexOfDistinct(index, ids[|ts| - 1]);
    }
    forall t | t in index && t != name && t !in ts && |ts| > 0
      ensures Similarity(index, sim, name, t) <= Similarity(index, sim, name, ts[|ts| - 1])
    {
      var j := IndexOf(index, t);
      assert j != q;
      assert j !in ids;
    }
  }

  /**
   What the function as written guarantees for a known title: for
   `top_n >= 0` it returns `min(top_n, N - 1)` distinct titles of the index
   in non-increasing similarity; it does not promise to leave out the
   queried title.
   */
  lemma AsWrittenSelects(name: string, topN: int, index: seq<string>, sim: seq<seq<real>>)
    requires ValidEngine(index, sim) && name in index
    ensures var r := GetRecommendationsAsWritten(name, topN, index, sim);
            && r.Titles?
            && (topN >= 0 ==> |r.titles| == Min(topN, |index| - 1))
            && Distinct(r.titles)
            && (forall k :: 0 <= k < |r.titles| ==> r.titles[k] in index)
            && (forall a, b :: 0 <= a < b < |r.titles| ==>
                  Similarity(index, sim, name, r.titles[a]) >= Similarity(index, sim, name, r.titles[b]))
  {
    var q := IndexOf(index, name);
    var scores := sim[q];
    var order := DescendingOrder(scores);
    var ids := SkipFirst(order, topN);
    SkipFirstSelects(order, scores, topN);
    var ts := TitlesAt(index, ids);
    TitlesAtDistinct(index, ids);
    forall k | 0 <= k < |ts|
      ensures IndexOf(index, ts[k]) == ids[k]
    {
      IndexOfDistinct(index, ids[k]);
    }
  }

  /**
   When the queried title is strictly more similar to itself than to any
   other title, which is the case the code assumes, the function as written
   and the corrected one return the same result.
   */
  lemma AsWrittenAgreesOnStrictDiagonal(name: string, topN: int, index: seq<string>, sim: seq<seq<real>>)
    requires ValidEngine(index, sim) && name in index
    requires forall t :: t in index && t != name ==> Similarity(index, sim, name, t) < Similarity(index, sim, name, name)
    ensures GetRecommendationsAsWritten(name, topN, index, sim) == GetRecommendations(name, topN, index, sim)
  {
    var q := IndexOf(index, name);
    var scores := sim[q];
    var order := DescendingOrder(scores);
    forall j | 0 <= j < |scores| && j != q
      ensures scores[j] < scores[q]
    {
      IndexOfDistinct(index, j);
      assert Similarity(index, sim, name, index[j]) < Similarity(index, sim, name, name);
    }
    StrictTopIsSkipped(order, scores, q, topN);
    QueryFirstAgrees(order, q, topN);
  }

  /**
   Ranking a row of two equal scores: the ascending argsort keeps index
   order, so reversing it ranks index 1 first.
   */
  lemma TiedRowRanking()
    ensures DescendingOrder([1.0, 1.0]) == [1, 0]
  {
    var scores: seq<real> := [1.0, 1.0];
    assert ArgsortPrefix(scores, 1) == [0];
    assert ArgsortPrefix(scores, 2) == [0, 1];
  }

  /** The as-written selection on the tied row keeps index 0, the queried one. */
  lemma TiedRowAsWrittenSelection()
    ensures SkipFirst(DescendingOrder([1.0, 1.0]), DEFAULT_TOP_N) == [0]
  {
    TiedRowRanking();
  }

  /** The corrected selection on the tied row keeps index 1. */
  lemma TiedRowCorrectedSelection()
    ensures SkipQuery(DescendingOrder([1.0, 1.0]), 0, DEFAULT_TOP_N) == [1]
  {
    TiedRowRanking();
    assert Without([0], 0) == [];
    assert Without([1, 0], 0) == [1];
    assert QueryFirst([1, 0], 0) == [0, 1];
  }

  /**
   Two titles with identical rating vectors have similarity 1.0 to each
   other; ranking "A" ties it with "B", the reversed ascending argsort puts
   "B" first, and the function as written recommends "A" to itself.
   */
  lemma QueryRecommendedToItself()
    ensures GetRecommendationsAsWritten("A", DEFAULT_TOP_N, ["A", "B"], [[1.0, 1.0], [1.0, 1.0]]) == Titles(["A"])
  {
    var sim: seq<seq<real>> := [[1.0, 1.0], [1.0, 1.0]];
    assert IndexOf(["A", "B"], "A") == 0;
    assert sim[0] == [1.0, 1.0];
    TiedRowAsWrittenSelection();
    assert TitlesAt(["A", "B"], [0]) == ["A"];
  }

  /**
   The self-recommendation does not hang on one tie order.  Both rows of the
   tie are [1.0, 1.0], so they are ranked alike; whatever ranking of that
   row the sort produces, the slice keeps the entry ranked second, and
   querying the title at that entry lists the title itself.
   */
  lemma AnyTieOrderRecommendsAQueryToItself(order: seq<nat>, topN: int)
    requires IsDescendingRanking(order, [1.0, 1.0]) && topN >= 1
    ensures order[0] != order[1] && order[1] < 2
    ensures SkipFirst(order, topN) == [order[1]]
    ensures ["A", "B"][order[1]] in TitlesAt(["A", "B"], SkipFirst(order, topN))
  {
    var ids := SkipFirst(order, topN);
    assert |ids| == 1;
    assert ids == [order[1]];
  }

  /** On the same tie, the corrected function recommends "B" only. */
  lemma TiedTitleRecommended()
    ensures GetRecommendations("A", DEFAULT_TOP_N, ["A", "B"], [[1.0, 1.0], [1.0, 1.0]]) == Titles(["B"])
  {
    var sim: seq<seq<real>> := [[1.0, 1.0], [1.0, 1.0]];
    assert IndexOf(["A", "B"], "A") == 0;
    assert sim[0] == [1.0, 1.0];
    TiedRowCorrectedSelection();
    assert TitlesAt(["A", "B"], [1]) == ["B"];
  }

  /** `get_all_titles`: the labels sorted A to Z, duplicates kept. */
  function GetAllTitles(index: seq<string>): (r: seq<string>)
    ensures SortedBy(r, Less)
    ensures multiset(r) == multiset(index)
  {
    LessIsStrictTotalOrder();
    Sort(index, Less)
  }

  /** Any sorted rearrangement of the labels is the result of `get_all_titles`. */
  lemma AllTitlesUnique(index: seq<string>, other: seq<string>)
    requires SortedBy(other, Less) && multiset(other) == multiset(index)
    ensures GetAllTitles(index) == other
  {
    LessIsStrictTotalOrder();
    SortedPermutationIsUnique(GetAllTitles(index), other, Less);
  }

  /** Labels already in strictly ascending order come back unchanged. */
  lemma AllTitlesOfSortedIndex(index: seq<string>)
    requires StrictlySortedBy(index, Less)
    ensures GetAllTitles(index) == index
  {
    LessIsStrictTotalOrder();
    StrictlySortedIsSorted(index, Less);
    AllTitlesUnique(index, index);
  }

  /**
   The pivot's row labels are already in ascending order, so
   `get_all_titles` returns exactly the engine's row labels, in their order.
   */
  lemma AllTitlesArePivotIndex(rs: seq<Interaction>, movies: seq<Movie>)
    ensures var index := BuildPivotTable(rs, movies).titles;
            GetAllTitles(index) == index
  {
    AllTitlesOfSortedIndex(BuildPivotTable(rs, movies).titles);
  }
}
