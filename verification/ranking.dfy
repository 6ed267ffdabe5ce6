/**
 Ranking over one row of the similarity matrix: `np.argsort(scores)[::-1]`
 orders the indices by descending score, and `[1 : top_n + 1]` skips the
 first-ranked index and keeps the next `top_n`.  The properties are proved
 for every descending ranking, whatever order it gives to tied scores; the
 concrete `DescendingOrder` is one such ranking.
 */
module Ranking {
  import opened Seqs

  /** `order` lists each index 0..n-1 exactly once. */
  predicate IsPermutation(order: seq<nat>, n: nat) {
    && |order| == n
    && (forall k :: 0 <= k < |order| ==> order[k] < n)
    && (forall i :: 0 <= i < n ==> i in order)
    && Distinct(order)
  }

  /** Scores read along `order` never decrease. */
  predicate Ascending(order: seq<nat>, scores: seq<real>) {
    && (forall k :: 0 <= k < |order| ==> order[k] < |scores|)
    && (forall a, b :: 0 <= a < b < |order| ==> scores[order[a]] <= scores[order[b]])
  }

  /** Scores read along `order` never increase. */
  predicate Descending(order: seq<nat>, scores: seq<real>) {
    && (forall k :: 0 <= k < |order| ==> order[k] < |scores|)
    && (forall a, b :: 0 <= a < b < |order| ==> scores[order[a]] >= scores[order[b]])
  }

  /** A possible value of `np.argsort(scores)[::-1]`: all indices, by non-increasing score. */
  predicate IsDescendingRanking(order: seq<nat>, scores: seq<real>) {
    IsPermutation(order, |scores|) && Descending(order, scores)
  }

  /** Inserts index `i` after every index whose score is not above its own. */
  function InsertByScore(i: nat, acc: seq<nat>, scores: seq<real>): (r: seq<nat>)
    requires i < |scores| && Ascending(acc, scores)
    ensures Ascending(r, scores)
    ensures |r| == |acc| + 1
    ensures forall k :: k in r <==> k == i || k in acc
  {
    if |acc| == 0 then [i]
    else if scores[i] < scores[acc[0]] then
      [i] + acc
    else
      var rest := InsertByScore(i, acc[1..], scores);
      assert forall k :: k in acc <==> k == acc[0] || k in acc[1..];
      assert forall b :: 0 <= b < |rest| ==> scores[acc[0]] <= scores[rest[b]] by {
        forall b | 0 <= b < |rest| ensures scores[acc[0]] <= scores[rest[b]] {
          assert rest[b] in rest;
          if rest[b] != i {
            var p :| 0 <= p < |acc| && acc[p] == rest[b];
          }
        }
      }
      [acc[0]] + rest
  }

  /** Inserting an index not yet present keeps the indices distinct. */
  lemma {:induction false} InsertByScoreDistinct(i: nat, acc: seq<nat>, scores: seq<real>)
    requires i < |scores| && Ascending(acc, scores)
    requires i !in acc && Distinct(acc)
    ensures Distinct(InsertByScore(i, acc, scores))
  {
    if |acc| > 0 && scores[i] >= scores[acc[0]] {
      InsertByScoreDistinct(i, acc[1..], scores);
      var rest := InsertByScore(i, acc[1..], scores);
      assert forall k :: 0 <= k < |rest| ==> rest[k] in rest;
    }
  }

  /** The indices 0..n-1 in ascending order of score, equal scores by index. */
  function ArgsortPrefix(scores: seq<real>, n: nat): (order: seq<nat>)
    requires n <= |scores|
    ensures IsPermutation(order, n) && Ascending(order, scores)
  {
    if n == 0 then []
    else
      var prev := ArgsortPrefix(scores, n - 1);
      assert n - 1 !in prev;
      InsertByScoreDistinct(n - 1, prev, scores);
      var order := InsertByScore(n - 1, prev, scores);
      assert forall k :: 0 <= k < |order| ==> order[k] in order;
      order
  }

  /** `np.argsort(scores)`; ties are kept in index order, as numpy's sort does for short rows. */
  function Argsort(scores: seq<real>): (order: seq<nat>)
    ensures IsPermutation(order, |scores|) && Ascending(order, scores)
  {
    ArgsortPrefix(scores, |scores|)
  }

  /** `np.argsort(scores)[::-1]`: every index once, by non-increasing score. */
  function DescendingOrder(scores: seq<real>): (order: seq<nat>)
    ensures IsDescendingRanking(order, scores)
  {
    var asc := Argsort(scores);
    ReverseOfAscending(asc, scores);
    Reverse(asc)
  }

  /** Reading an ascending permutation backwards gives a descending one. */
  lemma ReverseOfAscending(asc: seq<nat>, scores: seq<real>)
    requires IsPermutation(asc, |scores|) && Ascending(asc, scores)
    ensures IsDescendingRanking(Reverse(asc), scores)
  {
    var order := Reverse(asc);
    var n := |asc|;
    forall a, b | 0 <= a < b < n
      ensures order[a] != order[b] && scores[order[a]] >= scores[order[b]]
    {
      assert order[a] == asc[n - 1 - a] && order[b] == asc[n - 1 - b];
    }
    forall i | 0 <= i < n
      ensures i in order
    {
      assert i in asc;
      var k :| 0 <= k < n && asc[k] == i;
      assert order[n - 1 - k] == i;
    }
  }

  /**
   `order[1 : top_n + 1]`: the indices after the first-ranked one, at most
   `top_n` of them.  The result is the window of `order` that starts at
   position 1; for `top_n >= 0` its length is `min(top_n, N - 1)`.
   */
  function SkipFirst(order: seq<nat>, topN: int): (ids: seq<nat>)
    ensures |order| >= 1 ==> 1 + |ids| <= |order| && ids == order[1..1 + |ids|]
    ensures |order| >= 1 && topN >= 0 ==> |ids| == Min(topN, |order| - 1)
  {
    PySlice(order, 1, topN + 1)
  }

  /**
   A negative `top_n` follows Python's slice rules: -1 selects nothing,
   while -m for m >= 2 drops the last m - 1 entries besides the first one.
   */
  lemma NegativeTopN(order: seq<nat>, topN: int)
    requires topN < 0 && |order| >= 1
    ensures topN == -1 ==> SkipFirst(order, topN) == []
    ensures topN < -1 && |order| + topN + 1 > 1 ==> SkipFirst(order, topN) == order[1..|order| + topN + 1]
    ensures topN < -1 && |order| + topN + 1 <= 1 ==> SkipFirst(order, topN) == []
  {
  }

  /**
   The first `m` entries of a descending sequence without repetitions are
   distinct, valid and non-increasing, and no other entry scores above the
   last of them.
   */
  lemma PrefixSelects(rest: seq<nat>, scores: seq<real>, m: nat)
    requires Descending(rest, scores) && Distinct(rest) && m <= |rest|
    ensures var ids := rest[..m];
            && Distinct(ids)
            && (forall k :: 0 <= k < m ==> ids[k] < |scores|)
            && (forall a, b :: 0 <= a < b < m ==> scores[ids[a]] >= scores[ids[b]])
            && (forall j :: j in rest && j !in ids && m > 0 ==> scores[j] <= scores[ids[m - 1]])
  {
    var ids := rest[..m];
    forall j | j in rest && j !in ids && m > 0
      ensures scores[j] <= scores[ids[m - 1]]
    {
      var p :| 0 <= p < |rest| && rest[p] == j;
      assert p >= m by {
        assert forall k :: 0 <= k < m ==> ids[k] == rest[k];
      }
    }
  }

  /**
   What the selection as written guarantees for any descending ranking: the
   returned indices are distinct, valid, exclude the first-ranked index, come
   in non-increasing score order, and no index left out (other than the
   first-ranked one) scores above the last one returned.
   */
  lemma SkipFirstSelects(order: seq<nat>, scores: seq<real>, topN: int)
    requires IsDescendingRanking(order, scores) && |scores| >= 1
    ensures var ids := SkipFirst(order, topN);
            && Distinct(ids)
            && (forall k :: 0 <= k < |ids| ==> ids[k] < |scores|)
            && order[0] !in ids
            && (forall a, b :: 0 <= a < b < |ids| ==> scores[ids[a]] >= scores[ids[b]])
            && (forall j :: 0 <= j < |scores| && j != order[0] && j !in ids && |ids| > 0 ==>
                  scores[j] <= scores[ids[|ids| - 1]])
  {
    var ids := SkipFirst(order, topN);
    var tail := order[1..];
    assert ids == tail[..|ids|];
    assert Descending(tail, scores);
    PrefixSelects(tail, scores, |ids|);
    assert forall j :: 0 <= j < |scores| ==> j in order;
    assert forall j :: j in order && j != order[0] ==> j in tail;
    assert order[0] !in tail;
  }

  /**
   When the queried index scores strictly above every other index of its row
   (cosine similarity 1.0 on the diagonal, below 1.0 elsewhere), every
   descending ranking puts it first, so the selection as written never
   returns it.
   */
  lemma StrictTopIsSkipped(order: seq<nat>, scores: seq<real>, q: nat, topN: int)
    requires IsDescendingRanking(order, scores) && q < |scores|
    requires forall j :: 0 <= j < |scores| && j != q ==> scores[j] < scores[q]
    ensures order[0] == q
    ensures q !in SkipFirst(order, topN)
  {
    assert q in order;
    var p :| 0 <= p < |order| && order[p] == q;
    SkipFirstSelects(order, scores, topN);
  }

  /** `order` with the index `q` taken out, the rest in their order. */
  function Without(order: seq<nat>, q: nat): (r: seq<nat>)
    ensures forall k :: k in r <==> k in order && k != q
    ensures Distinct(order) ==> Distinct(r)
    ensures q in order && Distinct(order) ==> |r| == |order| - 1
    ensures q !in order ==> r == order
    ensures IsSubsequence(r, order)
  {
    if |order| == 0 then []
    else
      var rest := Without(order[1..], q);
      assert forall k :: k in order <==> k == order[0] || k in order[1..];
      if order[0] == q then rest
      else
        assert forall k :: 0 <= k < |rest| ==> rest[k] in rest;
        [order[0]] + rest
  }

  /** Taking an index out of a descending ranking leaves the rest descending. */
  lemma {:induction false} WithoutKeepsDescending(order: seq<nat>, q: nat, scores: seq<real>)
    requires Descending(order, scores)
    ensures Descending(Without(order, q), scores)
  {
    if |order| > 0 {
      WithoutKeepsDescending(order[1..], q, scores);
      var rest := Without(order[1..], q);
      if order[0] != q {
        forall b | 0 <= b < |rest|
          ensures scores[order[0]] >= scores[rest[b]]
        {
          assert rest[b] in rest;
          var p :| 0 <= p < |order[1..]| && order[1..][p] == rest[b];
          assert order[p + 1] == rest[b];
        }
      }
    }
  }

  /**
   The evidently intended ranking: the queried index first, then every other
   index in the order of `order`.
   */
  function QueryFirst(order: seq<nat>, q: nat): seq<nat>
  {
    [q] + Without(order, q)
  }

  /** The corrected selection: skip the queried index itself, keep the next `top_n`. */
  function SkipQuery(order: seq<nat>, q: nat, topN: int): seq<nat>
  {
    SkipFirst(QueryFirst(order, q), topN)
  }

  /**
   What the corrected selection guarantees for any descending ranking: the
   queried index is never returned; for `top_n >= 0` exactly
   `min(top_n, N - 1)` indices come back, distinct and valid, in
   non-increasing score order; and no other index left out scores above the
   last one returned.
   */
  lemma SkipQuerySelects(order: seq<nat>, scores: seq<real>, q: nat, topN: int)
    requires IsDescendingRanking(order, scores) && q < |scores|
    ensures var ids := SkipQuery(order, q, topN);
            && q !in ids
            && (topN >= 0 ==> |ids| == Min(topN, |scores| - 1))
            && Distinct(ids)
            && (forall k :: 0 <= k < |ids| ==> ids[k] < |scores|)
            && (forall a, b :: 0 <= a < b < |ids| ==> scores[ids[a]] >= scores[ids[b]])
            && (forall j :: 0 <= j < |scores| && j != q && j !in ids && |ids| > 0 ==>
                  scores[j] <= scores[ids[|ids| - 1]])
  {
    var rest := Without(order, q);
    var ids := SkipQuery(order, q, topN);
    WithoutKeepsDescending(order, q, scores);
    assert QueryFirst(order, q)[1..] == rest;
    assert ids == rest[..|ids|];
    assert q in order;
    PrefixSelects(rest, scores, |ids|);
    assert forall j :: 0 <= j < |scores| && j != q ==> j in rest by {
      assert forall j :: 0 <= j < |scores| ==> j in order;
    }
  }

  /** The corrected selection only returns positions of the row. */
  lemma SkipQueryInRange(order: seq<nat>, q: nat, topN: int, n: nat)
    requires IsPermutation(order, n) && q < n
    ensures forall k :: 0 <= k < |SkipQuery(order, q, topN)| ==> SkipQuery(order, q, topN)[k] < n
  {
    var rest := Without(order, q);
    var ids := SkipQuery(order, q, topN);
    assert QueryFirst(order, q)[1..] == rest;
    assert forall k :: 0 <= k < |ids| ==> ids[k] in rest;
  }

  /** When the queried index already ranks first, the corrected selection is the one as written. */
  lemma QueryFirstAgrees(order: seq<nat>, q: nat, topN: int)
    requires |order| > 0 && order[0] == q && Distinct(order)
    ensures SkipQuery(order, q, topN) == SkipFirst(order, topN)
  {
    assert q !in order[1..];
    assert Without(order[1..], q) == order[1..];
    assert QueryFirst(order, q) == order;
  }

  /**
   When the queried index has the top score of its row (cosine similarity is
   at most 1.0 off the diagonal), putting it first is itself a descending
   ranking: the corrected selection is what the code as written returns for
   the tie order that favours the query.
   */
  lemma QueryFirstIsARanking(order: seq<nat>, scores: seq<real>, q: nat)
    requires IsDescendingRanking(order, scores) && q < |scores|
    requires forall j :: 0 <= j < |scores| ==> scores[j] <= scores[q]
    ensures IsDescendingRanking(QueryFirst(order, q), scores)
  {
    var rest := Without(order, q);
    WithoutKeepsDescending(order, q, scores);
    var full := QueryFirst(order, q);
    assert q in order;
    assert |full| == |scores|;
    assert forall k :: 1 <= k < |full| ==> full[k] == rest[k - 1];
    assert forall k :: 0 <= k < |rest| ==> rest[k] in rest;
    assert Distinct(full) by {
      forall a, b | 0 <= a < b < |full| ensures full[a] != full[b] {
        if a > 0 {
          assert full[a] == rest[a - 1] && full[b] == rest[b - 1];
        }
      }
    }
    assert forall i :: 0 <= i < |scores| ==> i in full by {
      forall i | 0 <= i < |scores| ensures i in full {
        if i != q {
          assert i in rest;
        }
      }
    }
    assert Descending(full, scores) by {
      forall a, b | 0 <= a < b < |full| ensures scores[full[a]] >= scores[full[b]] {
        if a > 0 {
          assert full[a] == rest[a - 1] && full[b] == rest[b - 1];
        }
      }
    }
  }
}
