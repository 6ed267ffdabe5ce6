/**
 Sorting under a strict total order `lt`, in the two forms the system uses:
 Python's `sorted()` (a permutation in ascending order, duplicates kept) and
 the sorted, de-duplicated labels pandas gives a pivot table's index and
 columns.
 */
module Sorting {
  import opened Seqs

  /** `lt` is irreflexive, transitive and relates any two different values. */
  ghost predicate StrictTotalOrder<T(!new)>(lt: (T, T) -> bool) {
    && (forall x :: !lt(x, x))
    && (forall x, y, z :: lt(x, y) && lt(y, z) ==> lt(x, z))
    && (forall x, y :: x != y ==> lt(x, y) || lt(y, x))
  }

  /** Ascending under `lt`; equal neighbours allowed. */
  predicate SortedBy<T>(s: seq<T>, lt: (T, T) -> bool) {
    forall i, j :: 0 <= i < j < |s| ==> !lt(s[j], s[i])
  }

  /** Strictly ascending under `lt`, hence without repetitions. */
  predicate StrictlySortedBy<T>(s: seq<T>, lt: (T, T) -> bool) {
    forall i, j :: 0 <= i < j < |s| ==> lt(s[i], s[j])
  }

  /** Places `x` in front of the first element of sorted `s` that is not below it. */
  function Insert<T(!new)>(x: T, s: seq<T>, lt: (T, T) -> bool): (r: seq<T>)
    requires StrictTotalOrder(lt) && SortedBy(s, lt)
    ensures SortedBy(r, lt)
    ensures multiset(r) == multiset(s) + multiset{x}
    ensures forall y :: y in r <==> y == x || y in s
  {
    if |s| == 0 then [x]
    else if lt(s[0], x) then
      var rest := Insert(x, s[1..], lt);
      assert s == [s[0]] + s[1..];
      assert forall k :: 0 <= k < |rest| ==> !lt(rest[k], s[0]) by {
        forall k | 0 <= k < |rest| ensures !lt(rest[k], s[0]) {
          assert rest[k] in rest;
          if rest[k] == x {
            assert !lt(s[0], s[0]);
          } else {
            var p :| 0 <= p < |s[1..]| && s[1..][p] == rest[k];
            assert s[p + 1] == rest[k];
          }
        }
      }
      [s[0]] + rest
    else
      assert forall k :: 0 <= k < |s| ==> !lt(s[k], x) by {
        forall k | 0 <= k < |s| ensures !lt(s[k], x) {
          if k > 0 {
            assert !lt(s[k], s[0]);
          }
        }
      }
      [x] + s
  }

  /** Insertion sort: Python's `sorted()` for a strict total order. */
  function Sort<T(!new)>(s: seq<T>, lt: (T, T) -> bool): (r: seq<T>)
    requires StrictTotalOrder(lt)
    ensures SortedBy(r, lt)
    ensures multiset(r) == multiset(s)
  {
    if |s| == 0 then []
    else
      assert s == [s[0]] + s[1..];
      Insert(s[0], Sort(s[1..], lt), lt)
  }

  /** Adds `x` to the strictly sorted `s` unless it is already there. */
  function InsertUnique<T(==,!new)>(x: T, s: seq<T>, lt: (T, T) -> bool): (r: seq<T>)
    requires StrictTotalOrder(lt) && StrictlySortedBy(s, lt)
    ensures StrictlySortedBy(r, lt)
    ensures forall y :: y in r <==> y == x || y in s
  {
    if |s| == 0 then [x]
    else if lt(s[0], x) then
      var rest := InsertUnique(x, s[1..], lt);
      assert forall k :: 0 <= k < |rest| ==> rest[k] in rest;
      [s[0]] + rest
    else if s[0] == x then s
    else [x] + s
  }

  /** The distinct values of `s` in strictly ascending order. */
  function SortUnique<T(==,!new)>(s: seq<T>, lt: (T, T) -> bool): (r: seq<T>)
    requires StrictTotalOrder(lt)
    ensures StrictlySortedBy(r, lt)
    ensures forall y :: y in r <==> y in s
  {
    if |s| == 0 then []
    else InsertUnique(s[0], SortUnique(s[1..], lt), lt)
  }

  /** A strictly sorted sequence has no repetitions. */
  lemma StrictlySortedIsDistinct<T(!new)>(s: seq<T>, lt: (T, T) -> bool)
    requires StrictTotalOrder(lt) && StrictlySortedBy(s, lt)
    ensures Distinct(s)
  {
  }

  /** A strictly sorted sequence is sorted. */
  lemma StrictlySortedIsSorted<T(!new)>(s: seq<T>, lt: (T, T) -> bool)
    requires StrictTotalOrder(lt) && StrictlySortedBy(s, lt)
    ensures SortedBy(s, lt)
  {
    forall i, j | 0 <= i < j < |s| ensures !lt(s[j], s[i]) {
      assert lt(s[i], s[j]);
      assert !lt(s[i], s[i]);
    }
  }

  /**
   A sorted permutation is unique: any two sequences that are sorted and hold
   the same multiset are equal, so the result of `Sort` does not depend on
   how it was computed.
   */
  lemma {:induction false} SortedPermutationIsUnique<T(!new)>(a: seq<T>, b: seq<T>, lt: (T, T) -> bool)
    requires StrictTotalOrder(lt)
    requires SortedBy(a, lt) && SortedBy(b, lt)
    requires multiset(a) == multiset(b)
    ensures a == b
  {
    if |a| == 0 {
      assert |multiset(b)| == 0;
    } else {
      assert |b| == |multiset(b)| == |multiset(a)| == |a|;
      SameHeads(a, b, lt);
      assert a == [a[0]] + a[1..];
      assert b == [b[0]] + b[1..];
      assert multiset(a[1..]) == multiset(a) - multiset{a[0]};
      assert multiset(b[1..]) == multiset(b) - multiset{b[0]};
      SortedPermutationIsUnique(a[1..], b[1..], lt);
    }
  }

  /** Two sorted sequences holding the same multiset start with the same value. */
  lemma SameHeads<T(!new)>(a: seq<T>, b: seq<T>, lt: (T, T) -> bool)
    requires StrictTotalOrder(lt)
    requires SortedBy(a, lt) && SortedBy(b, lt)
    requires multiset(a) == multiset(b) && |a| > 0
    ensures |b| > 0 && a[0] == b[0]
  {
    assert a[0] in multiset(b);
    assert b[0] in multiset(a);
    var i :| 0 <= i < |b| && b[i] == a[0];
    var j :| 0 <= j < |a| && a[j] == b[0];
    assert !lt(b[i], b[0]) by { if i > 0 { assert !lt(b[i], b[0]); } }
    assert !lt(a[j], a[0]) by { if j > 0 { assert !lt(a[j], a[0]); } }
  }
}
