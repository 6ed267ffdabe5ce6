/**
 The noise filter of the data pipeline (`filter_noise`): a fixed-order,
 two-pass count-threshold filter over (userId, movieId, rating) records.
 The first pass keeps the rows of movies rated strictly more than
 MIN_MOVIE_RATINGS times; the second pass, on that result, keeps the rows of
 users with strictly more than MIN_USER_RATINGS rows.
 */
module InteractionFilter {
  import opened Seqs

  /** One row of the ratings table; the timestamp column plays no part. */
  datatype Interaction = Interaction(userId: int, movieId: int, rating: real)

  const MIN_MOVIE_RATINGS: nat := 50
  const MIN_USER_RATINGS: nat := 10

  /** `value_counts()` of the movieId column, read at one movie. */
  function MovieCount(rs: seq<Interaction>, movieId: int): nat {
    Count(rs, (r: Interaction) => r.movieId == movieId)
  }

  /** `value_counts()` of the userId column, read at one user. */
  function UserCount(rs: seq<Interaction>, userId: int): nat {
    Count(rs, (r: Interaction) => r.userId == userId)
  }

  /** The row's movie is among `popular_movies` of `rs`. */
  predicate IsPopular(rs: seq<Interaction>, r: Interaction) {
    MovieCount(rs, r.movieId) > MIN_MOVIE_RATINGS
  }

  /** The row's user is among `active_users` of `rs`. */
  predicate IsActive(rs: seq<Interaction>, r: Interaction) {
    UserCount(rs, r.userId) > MIN_USER_RATINGS
  }

  /** Step 1: keep the rows whose movie has more than MIN_MOVIE_RATINGS rows. */
  function PopularMovieRows(rs: seq<Interaction>): (out: seq<Interaction>)
    ensures IsSubsequence(out, rs)
    ensures forall x :: multiset(out)[x] == if IsPopular(rs, x) then multiset(rs)[x] else 0
  {
    Filter(rs, (r: Interaction) => IsPopular(rs, r))
  }

  /** Step 2: keep the rows whose user has more than MIN_USER_RATINGS rows. */
  function ActiveUserRows(rs: seq<Interaction>): (out: seq<Interaction>)
    ensures IsSubsequence(out, rs)
    ensures forall x :: multiset(out)[x] == if IsActive(rs, x) then multiset(rs)[x] else 0
    ensures forall x :: x in out ==> UserCount(out, x.userId) == UserCount(rs, x.userId)
  {
    var keep := (r: Interaction) => IsActive(rs, r);
    var out := Filter(rs, keep);
    assert forall x :: x in out ==> UserCount(out, x.userId) == UserCount(rs, x.userId) by {
      forall x | x in out
        ensures UserCount(out, x.userId) == UserCount(rs, x.userId)
      {
        CountOfKeptGroup(rs, keep, (r: Interaction) => r.userId == x.userId);
      }
    }
    out
  }

  /**
   `filter_noise`: rows are only removed, never altered or reordered; a row
   survives, with all its copies, exactly when its movie has more than
   MIN_MOVIE_RATINGS rows in the input and its user has more than
   MIN_USER_RATINGS rows among the movie-filtered rows.  Every surviving movie
   was popular in the input, and every surviving user is active in the output
   itself, because the second pass removes only whole users.
   */
  function FilterNoise(rs: seq<Interaction>): (out: seq<Interaction>)
    ensures IsSubsequence(out, rs)
    ensures forall x ::
      multiset(out)[x] == if IsPopular(rs, x) && IsActive(PopularMovieRows(rs), x) then multiset(rs)[x] else 0
    ensures forall x :: x in out ==> MovieCount(rs, x.movieId) > MIN_MOVIE_RATINGS
    ensures forall x :: x in out ==> UserCount(out, x.userId) > MIN_USER_RATINGS
  {
    var popular := PopularMovieRows(rs);
    var out := ActiveUserRows(popular);
    SubsequenceTransitive(out, popular, rs);
    assert forall x :: x in out ==> x in popular && IsActive(popular, x) by {
      forall x | x in out
        ensures x in popular && IsActive(popular, x)
      {
        assert multiset(out)[x] > 0;
      }
    }
    out
  }

  /** A movie with at most MIN_MOVIE_RATINGS rows (exactly 50, say) loses every row. */
  lemma UnpopularMovieIsDropped(rs: seq<Interaction>, movieId: int)
    requires MovieCount(rs, movieId) <= MIN_MOVIE_RATINGS
    ensures forall x :: x in FilterNoise(rs) ==> x.movieId != movieId
  {
  }

  lemma MovieCountAll(rs: seq<Interaction>, movieId: int)
    requires forall k :: 0 <= k < |rs| ==> rs[k].movieId == movieId
    ensures MovieCount(rs, movieId) == |rs|
  {
    CountAll(rs, (r: Interaction) => r.movieId == movieId);
  }

  lemma UserCountAppend(a: seq<Interaction>, b: seq<Interaction>, userId: int)
    ensures UserCount(a + b, userId) == UserCount(a, userId) + UserCount(b, userId)
  {
    CountAppend(a, b, (r: Interaction) => r.userId == userId);
  }

  lemma UserCountAll(rs: seq<Interaction>, userId: int)
    requires forall k :: 0 <= k < |rs| ==> rs[k].userId == userId
    ensures UserCount(rs, userId) == |rs|
  {
    CountAll(rs, (r: Interaction) => r.userId == userId);
  }

  lemma UserCountNone(rs: seq<Interaction>, userId: int)
    requires forall k :: 0 <= k < |rs| ==> rs[k].userId != userId
    ensures UserCount(rs, userId) == 0
  {
    CountNone(rs, (r: Interaction) => r.userId == userId);
  }

  /** When one movie has more than MIN_MOVIE_RATINGS rows and no other movie occurs, step 1 keeps everything. */
  lemma SinglePopularMovieKept(rs: seq<Interaction>, movieId: int)
    requires |rs| > MIN_MOVIE_RATINGS
    requires forall k :: 0 <= k < |rs| ==> rs[k].movieId == movieId
    ensures PopularMovieRows(rs) == rs
  {
    MovieCountAll(rs, movieId);
    FilterAll(rs, (r: Interaction) => IsPopular(rs, r));
  }

  /** In 50 rows of user 0 followed by one row of user 1, user 0 is active and user 1 is not. */
  lemma ExampleUserCounts(heavy: seq<Interaction>, last: Interaction)
    requires |heavy| > MIN_USER_RATINGS
    requires forall k :: 0 <= k < |heavy| ==> heavy[k].userId == 0
    requires last.userId == 1
    ensures forall k :: 0 <= k < |heavy| ==> IsActive(heavy + [last], heavy[k])
    ensures !IsActive(heavy + [last], last)
  {
    UserCountAppend(heavy, [last], 0);
    UserCountAll(heavy, 0);
    UserCountNone([last], 0);
    UserCountAppend(heavy, [last], 1);
    UserCountNone(heavy, 1);
    UserCountAll([last], 1);
  }

  /** A filter that accepts every row of `heavy` and rejects `last` returns `heavy`. */
  lemma {:induction false} FilterDropsLast(heavy: seq<Interaction>, last: Interaction, keep: Interaction -> bool)
    requires forall k :: 0 <= k < |heavy| ==> keep(heavy[k])
    requires !keep(last)
    ensures Filter(heavy + [last], keep) == heavy
  {
    if |heavy| == 0 {
      assert heavy + [last] == [last];
    } else {
      assert (heavy + [last])[1..] == heavy[1..] + [last];
      FilterDropsLast(heavy[1..], last, keep);
    }
  }

  /** Step 2 on the rows of an active user 0 followed by one row of user 1 keeps only user 0's rows. */
  lemma OneRowUserDropped(heavy: seq<Interaction>, last: Interaction)
    requires |heavy| > MIN_USER_RATINGS
    requires forall k :: 0 <= k < |heavy| ==> heavy[k].userId == 0
    requires last.userId == 1
    ensures ActiveUserRows(heavy + [last]) == heavy
  {
    var rs := heavy + [last];
    ExampleUserCounts(heavy, last);
    FilterDropsLast(heavy, last, (r: Interaction) => IsActive(rs, r));
  }

  /**
   The filter is two passes, not a fixed point: a movie with 51 rows survives
   step 1, but step 2 removes one of its rows, so the output holds the movie
   with only 50 rows, not more than MIN_MOVIE_RATINGS.
   */
  lemma TwoPassIsNotAFixedPoint()
    ensures var out := FilterNoise(seq(50, _ => Interaction(0, 1, 4.0)) + [Interaction(1, 1, 4.0)]);
            && Interaction(0, 1, 4.0) in out
            && MovieCount(out, 1) == MIN_MOVIE_RATINGS
  {
    var heavy := seq(50, _ => Interaction(0, 1, 4.0));
    var rs := heavy + [Interaction(1, 1, 4.0)];
    SinglePopularMovieKept(rs, 1);
    OneRowUserDropped(heavy, Interaction(1, 1, 4.0));
    assert FilterNoise(rs) == heavy;
    assert heavy[0] == Interaction(0, 1, 4.0);
    MovieCountAll(heavy, 1);
  }
}
