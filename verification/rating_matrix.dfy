/**
 The title x user rating matrix of the data pipeline (`build_pivot_table`
 and the row index `build_pipeline` returns): filtered ratings are
 inner-joined with the movie catalog on movieId, then pivoted into one row
 per distinct title and one column per distinct user; a cell is the mean of
 the ratings that land in it, and 0 when none does.
 */
module RatingMatrix {
  import opened Seqs
  import opened Sorting
  import opened Text
  import opened InteractionFilter

  /** One catalog row: the `movieId` and `title` columns of the movies table. */
  datatype Movie = Movie(movieId: int, title: string)

  /** One row of the merged table: a rating that found its title. */
  datatype Joined = Joined(title: string, userId: int, rating: real)

  /** The rating row `r` paired with every catalog row for its movie, in catalog order. */
  function JoinRow(r: Interaction, movies: seq<Movie>): seq<Joined>
  {
    if |movies| == 0 then []
    else
      (if movies[0].movieId == r.movieId then [Joined(movies[0].title, r.userId, r.rating)] else [])
      + JoinRow(r, movies[1..])
  }

  /** `ratings.merge(movies, on="movieId")`, the inner join of ratings and catalog. */
  function Merge(rs: seq<Interaction>, movies: seq<Movie>): seq<Joined>
  {
    if |rs| == 0 then [] else JoinRow(rs[0], movies) + Merge(rs[1..], movies)
  }

  lemma {:induction false} JoinRowMembers(r: Interaction, movies: seq<Movie>, j: Joined)
    ensures j in JoinRow(r, movies) <==>
      exists c :: c in movies && c.movieId == r.movieId && j == Joined(c.title, r.userId, r.rating)
  {
    if |movies| > 0 {
      JoinRowMembers(r, movies[1..], j);
      assert forall c :: c in movies <==> c == movies[0] || c in movies[1..];
    }
  }

  /**
   The inner join: a joined row exists exactly for a rating row and a catalog
   row with the same movieId, carrying the catalog's title and the rating's
   user and value.
   */
  lemma {:induction false} MergeMembers(rs: seq<Interaction>, movies: seq<Movie>, j: Joined)
    ensures j in Merge(rs, movies) <==>
      exists r, c :: r in rs && c in movies && c.movieId == r.movieId && j == Joined(c.title, r.userId, r.rating)
  {
    if |rs| > 0 {
      MergeMembers(rs[1..], movies, j);
      JoinRowMembers(rs[0], movies, j);
      assert forall r :: r in rs <==> r == rs[0] || r in rs[1..];
    }
  }

  /** The rating row has a catalog row to join with. */
  predicate HasCatalogEntry(movies: seq<Movie>, r: Interaction) {
    exists c :: c in movies && c.movieId == r.movieId
  }

  lemma {:induction false} OrphanJoinsNothing(r: Interaction, movies: seq<Movie>)
    requires !HasCatalogEntry(movies, r)
    ensures JoinRow(r, movies) == []
  {
    if |movies| > 0 {
      assert movies[0] in movies;
      assert forall c :: c in movies[1..] ==> c in movies;
      OrphanJoinsNothing(r, movies[1..]);
    }
  }

  /**
   Ratings whose movie has no catalog row are dropped by the join: removing
   them first leaves the merged table, and so the pivot, unchanged.
   */
  lemma {:induction false} OrphansContributeNothing(rs: seq<Interaction>, movies: seq<Movie>)
    ensures Merge(rs, movies) == Merge(Filter(rs, (r: Interaction) => HasCatalogEntry(movies, r)), movies)
  {
    var keep := (r: Interaction) => HasCatalogEntry(movies, r);
    if |rs| > 0 {
      OrphansContributeNothing(rs[1..], movies);
      var rest := Filter(rs[1..], keep);
      if keep(rs[0]) {
        assert Filter(rs, keep) == [rs[0]] + rest;
        assert ([rs[0]] + rest)[1..] == rest;
      } else {
        assert Filter(rs, keep) == rest;
        OrphanJoinsNothing(rs[0], movies);
      }
    }
  }

  function TitlesOf(m: seq<Joined>): (ts: seq<string>)
    ensures forall t :: t in ts <==> exists j :: j in m && j.title == t
  {
    if |m| == 0 then []
    else
      assert forall j :: j in m <==> j == m[0] || j in m[1..];
      [m[0].title] + TitlesOf(m[1..])
  }

  function UsersOf(m: seq<Joined>): (us: seq<int>)
    ensures forall u :: u in us <==> exists j :: j in m && j.userId == u
  {
    if |m| == 0 then []
    else
      assert forall j :: j in m <==> j == m[0] || j in m[1..];
      [m[0].userId] + UsersOf(m[1..])
  }

  /**
   The ratings the pivot aggregates into the cell (title, user): each rating
   as often as a joined record with that title and user carries it.
   */
  function RatingsAt(m: seq<Joined>, title: string, userId: int): (xs: seq<real>)
    ensures forall x :: x in xs <==> Joined(title, userId, x) in m
    ensures forall x :: multiset(xs)[x] == multiset(m)[Joined(title, userId, x)]
  {
    if |m| == 0 then []
    else
      assert forall j :: j in m <==> j == m[0] || j in m[1..];
      assert m == [m[0]] + m[1..];
      (if m[0].title == title && m[0].userId == userId then [m[0].rating] else [])
      + RatingsAt(m[1..], title, userId)
  }

  function Sum(xs: seq<real>): real {
    if |xs| == 0 then 0.0 else xs[0] + Sum(xs[1..])
  }

  /**
   `aggfunc="mean"` followed by `fillna(0)`: the mean of the ratings in a
   cell, and 0 for a cell no rating reaches.
   */
  function CellValue(xs: seq<real>): (v: real)
    ensures |xs| == 0 ==> v == 0.0
    ensures |xs| > 0 ==> v * (|xs| as real) == Sum(xs)
  {
    if |xs| == 0 then 0.0 else Sum(xs) / (|xs| as real)
  }

  lemma {:induction false} SumAtLeast(xs: seq<real>, lo: real)
    requires forall k :: 0 <= k < |xs| ==> lo <= xs[k]
    ensures Sum(xs) >= (|xs| as real) * lo
  {
    if |xs| > 0 {
      SumAtLeast(xs[1..], lo);
    }
  }

  lemma {:induction false} SumAtMost(xs: seq<real>, hi: real)
    requires forall k :: 0 <= k < |xs| ==> xs[k] <= hi
    ensures Sum(xs) <= (|xs| as real) * hi
  {
    if |xs| > 0 {
      SumAtMost(xs[1..], hi);
    }
  }

  /** A mean lies within any bounds that hold for all the values averaged. */
  lemma CellWithinBounds(xs: seq<real>, lo: real, hi: real)
    requires |xs| > 0
    requires forall k :: 0 <= k < |xs| ==> lo <= xs[k] <= hi
    ensures lo <= CellValue(xs) <= hi
  {
    var n := |xs| as real;
    var v := CellValue(xs);
    SumAtLeast(xs, lo);
    SumAtMost(xs, hi);
    assert v * n >= n * lo;
    assert v * n <= n * hi;
  }

  /** The pivot table: row labels, column labels and one row of cells per label. */
  datatype PivotTable = PivotTable(titles: seq<string>, users: seq<int>, cells: seq<seq<real>>)

  /** Every row label has a row of cells, one per column label. */
  predicate WellShaped(p: PivotTable) {
    && |p.cells| == |p.titles|
    && forall i :: 0 <= i < |p.cells| ==> |p.cells[i]| == |p.users|
  }

  predicate IntLess(a: int, b: int) { a < b }

  /**
   `pivot_table(index="title", columns="userId", values="rating",
   aggfunc="mean").fillna(0)` over a merged table: rows are the distinct
   titles in ascending order, columns the distinct users in ascending order,
   and each cell aggregates the ratings of its title and user.
   */
  function Pivot(m: seq<Joined>): (p: PivotTable)
    ensures WellShaped(p)
    ensures StrictlySortedBy(p.titles, Less) && Distinct(p.titles)
    ensures StrictlySortedBy(p.users, IntLess) && Distinct(p.users)
    ensures forall t :: t in p.titles <==> exists j :: j in m && j.title == t
    ensures forall u :: u in p.users <==> exists j :: j in m && j.userId == u
    ensures forall i, k :: 0 <= i < |p.titles| && 0 <= k < |p.users| ==>
      p.cells[i][k] == CellValue(RatingsAt(m, p.titles[i], p.users[k]))
  {
    LessIsStrictTotalOrder();
    var titles := SortUnique(TitlesOf(m), Less);
    var users := SortUnique(UsersOf(m), IntLess);
    StrictlySortedIsDistinct(titles, Less);
    StrictlySortedIsDistinct(users, IntLess);
    PivotTable(titles, users,
      seq(|titles|, i requires 0 <= i < |titles| =>
        seq(|users|, k requires 0 <= k < |users| => CellValue(RatingsAt(m, titles[i], users[k])))))
  }

  /** `build_pivot_table`: merge the ratings with the catalog, then pivot. */
  function BuildPivotTable(rs: seq<Interaction>, movies: seq<Movie>): PivotTable
  {
    Pivot(Merge(rs, movies))
  }

  /**
   The pivot's rows are exactly the titles of catalogued movies that have a
   rating; its columns are exactly the users of ratings whose movie is
   catalogued.
   */
  lemma PivotLabels(rs: seq<Interaction>, movies: seq<Movie>, t: string, u: int)
    ensures t in BuildPivotTable(rs, movies).titles <==>
      exists r, c :: r in rs && c in movies && c.movieId == r.movieId && c.title == t
    ensures u in BuildPivotTable(rs, movies).users <==>
      exists r, c :: r in rs && c in movies && c.movieId == r.movieId && r.userId == u
  {
    var m := Merge(rs, movies);
    if t in BuildPivotTable(rs, movies).titles {
      var j :| j in m && j.title == t;
      MergeMembers(rs, movies, j);
    }
    if exists r, c :: r in rs && c in movies && c.movieId == r.movieId && c.title == t {
      var r, c :| r in rs && c in movies && c.movieId == r.movieId && c.title == t;
      MergeMembers(rs, movies, Joined(c.title, r.userId, r.rating));
    }
    if u in BuildPivotTable(rs, movies).users {
      var j :| j in m && j.userId == u;
      MergeMembers(rs, movies, j);
    }
    if exists r, c :: r in rs && c in movies && c.movieId == r.movieId && r.userId == u {
      var r, c :| r in rs && c in movies && c.movieId == r.movieId && r.userId == u;
      MergeMembers(rs, movies, Joined(c.title, r.userId, r.rating));
    }
  }

  /** The smallest of a non-empty sequence of ratings. */
  function MinOf(xs: seq<real>): (lo: real)
    requires |xs| > 0
    ensures lo in xs && forall k :: 0 <= k < |xs| ==> lo <= xs[k]
  {
    if |xs| == 1 then xs[0]
    else
      var rest := MinOf(xs[1..]);
      assert forall k :: 1 <= k < |xs| ==> xs[k] == xs[1..][k - 1];
      if xs[0] <= rest then xs[0] else rest
  }

  /** The largest of a non-empty sequence of ratings. */
  function MaxOf(xs: seq<real>): (hi: real)
    requires |xs| > 0
    ensures hi in xs && forall k :: 0 <= k < |xs| ==> xs[k] <= hi
  {
    if |xs| == 1 then xs[0]
    else
      var rest := MaxOf(xs[1..]);
      assert forall k :: 1 <= k < |xs| ==> xs[k] == xs[1..][k - 1];
      if rest <= xs[0] then xs[0] else rest
  }

  /**
   A cell of the pivot is the mean of the joined ratings for its title and
   user (its value times their number is their sum), so it lies between the
   smallest and the largest of them; a cell no rating reaches is 0.
   */
  lemma PivotCellIsMean(rs: seq<Interaction>, movies: seq<Movie>, i: nat, k: nat)
    requires i < |BuildPivotTable(rs, movies).titles| && k < |BuildPivotTable(rs, movies).users|
    ensures var p := BuildPivotTable(rs, movies);
            var xs := RatingsAt(Merge(rs, movies), p.titles[i], p.users[k]);
            && p.cells[i][k] == CellValue(xs)
            && (|xs| == 0 ==> p.cells[i][k] == 0.0)
            && (|xs| > 0 ==> MinOf(xs) <= p.cells[i][k] <= MaxOf(xs))
  {
    var p := BuildPivotTable(rs, movies);
    var xs := RatingsAt(Merge(rs, movies), p.titles[i], p.users[k]);
    var v := CellValue(xs);
    assert p.cells[i][k] == v;
    if |xs| > 0 {
      CellWithinBounds(xs, MinOf(xs), MaxOf(xs));
    }
  }

  /** A lower bound on every joined rating bounds the ratings of each cell. */
  lemma RatingsAtAtLeast(m: seq<Joined>, title: string, userId: int, lo: real)
    requires forall j :: j in m ==> lo <= j.rating
    ensures forall n :: 0 <= n < |RatingsAt(m, title, userId)| ==> lo <= RatingsAt(m, title, userId)[n]
  {
    var xs := RatingsAt(m, title, userId);
    forall n | 0 <= n < |xs| ensures lo <= xs[n] {
      assert xs[n] in xs;
      assert Joined(title, userId, xs[n]) in m;
    }
  }

  /** With non-negative ratings (MovieLens uses 0.5 to 5 stars) every cell is non-negative. */
  lemma CellsNonNegative(rs: seq<Interaction>, movies: seq<Movie>, i: nat, k: nat)
    requires forall r :: r in rs ==> r.rating >= 0.0
    requires i < |BuildPivotTable(rs, movies).titles| && k < |BuildPivotTable(rs, movies).users|
    ensures BuildPivotTable(rs, movies).cells[i][k] >= 0.0
  {
    var p := BuildPivotTable(rs, movies);
    var m := Merge(rs, movies);
    var xs := RatingsAt(m, p.titles[i], p.users[k]);
    PivotCellIsMean(rs, movies, i, k);
    if |xs| > 0 {
      forall j | j in m ensures j.rating >= 0.0 {
        MergeMembers(rs, movies, j);
      }
      RatingsAtAtLeast(m, p.titles[i], p.users[k], 0.0);
      var n :| 0 <= n < |xs| && xs[n] == MinOf(xs);
    }
  }

  /**
   `build_pipeline`: filter the ratings, pivot them, and return the pivot's
   row labels as the index aligned with the matrix rows.  The index has no
   repeated title, has one entry per matrix row, and names exactly the titles
   of catalogued movies that kept at least one row through the noise filter.
   */
  function BuildPipeline(rs: seq<Interaction>, movies: seq<Movie>): (result: (PivotTable, seq<string>))
    ensures WellShaped(result.0) && result.1 == result.0.titles
    ensures Distinct(result.1) && |result.0.cells| == |result.1|
    ensures forall t :: t in result.1 <==>
      exists r, c :: r in FilterNoise(rs) && c in movies && c.movieId == r.movieId && c.title == t
    ensures forall t :: t in result.1 ==>
      exists c :: c in movies && c.title == t && MovieCount(rs, c.movieId) > MIN_MOVIE_RATINGS
  {
    var pivot := BuildPivotTable(FilterNoise(rs), movies);
    forall t ensures t in pivot.titles <==>
      exists r, c :: r in FilterNoise(rs) && c in movies && c.movieId == r.movieId && c.title == t
    {
      PivotLabels(FilterNoise(rs), movies, t, 0);
    }
    (pivot, pivot.titles)
  }
}
