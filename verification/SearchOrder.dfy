/**
 Putting search results into the order of the message list (lib/sort/sort.go SortBy,
 called from lib/msgstore.go Search).  The library sort used here is not stable, so
 the question is when its result is determined at all.
 */
module SearchOrder {
  import opened Collections
  import opened StableSorting

  type Uid = nat

  /** The last position of u in s. */
  function LastIndex(s: seq<Uid>, u: Uid): (i: nat)
    requires u in s
    ensures i < |s| && s[i] == u && u !in s[i + 1..]
  {
    if s[|s| - 1] == u then |s| - 1 else LastIndex(s[..|s| - 1], u)
  }

  /** What looking u up in the position map gives: an absent key reads as zero. */
  function Rank(s: seq<Uid>, u: Uid): nat {
    if u in s then LastIndex(s, u) else 0
  }

  ghost predicate RankSorted(list: seq<Uid>, t: seq<Uid>) {
    forall i, j :: 0 <= i < j < |t| ==> Rank(list, t[i]) <= Rank(list, t[j])
  }

  /** All that an unstable sort promises. */
  ghost predicate Outcome(toSort: seq<Uid>, list: seq<Uid>, t: seq<Uid>) {
    RankSorted(list, t) && multiset(t) == multiset(toSort)
  }

  method BuildMap(sortBy: seq<Uid>) returns (uidMap: map<Uid, nat>)
    ensures uidMap.Keys == ToSet(sortBy)
    ensures forall u :: u in sortBy ==> uidMap[u] == LastIndex(sortBy, u)
  {
    uidMap := map[];
    for i := 0 to |sortBy|
      invariant uidMap.Keys == ToSet(sortBy[..i])
      invariant forall u :: u in sortBy[..i] ==> uidMap[u] == LastIndex(sortBy[..i], u)
    {
      assert sortBy[..i + 1][..i] == sortBy[..i];
      assert sortBy[..i + 1] == sortBy[..i] + [sortBy[i]];
      uidMap := uidMap[sortBy[i] := i];
    }
    assert sortBy[..|sortBy|] == sortBy;
  }

  /** Stands for the library's sort.Slice; its contract says no more than that one's. */
  method SliceUnstable(a: array<Uid>, rank: Uid -> nat)
    modifies a
    ensures forall i, j :: 0 <= i < j < a.Length ==> rank(a[i]) <= rank(a[j])
    ensures multiset(a[..]) == multiset(old(a[..]))
  {
    var less := (x: Uid, y: Uid) => rank(x) < rank(y);
    StableSortCorrect(less, a[..]);
    SliceStable(a, less);
    forall i, j | 0 <= i < j < a.Length ensures rank(a[i]) <= rank(a[j]) {
      assert !less(a[..][j], a[..][i]);
    }
  }

  method SortBy(toSort: array<Uid>, sortBy: seq<Uid>)
    modifies toSort
    ensures Outcome(old(toSort[..]), sortBy, toSort[..])
  {
    var uidMap := BuildMap(sortBy);
    var rank := (u: Uid) => if u in uidMap then uidMap[u] else 0;
    SliceUnstable(toSort, rank);
    assert forall u :: rank(u) == Rank(sortBy, u) by {
      assert forall u :: u in uidMap.Keys <==> u in sortBy;
    }
  }

  /** Search: the worker's answer, reordered, is what the callback gets. */
  method SearchResults(uids: array<Uid>, storeUids: seq<Uid>) returns (results: seq<Uid>)
    modifies uids
    ensures Outcome(old(uids[..]), storeUids, results)
    ensures Distinct(storeUids) && Distinct(old(uids[..])) && (forall u :: u in old(uids[..]) ==> u in storeUids) ==>
              results == Filter(storeUids, u => u in old(uids[..]))
  {
    SortBy(uids, storeUids);
    results := uids[..];
    if Distinct(storeUids) && Distinct(old(uids[..])) && (forall u :: u in old(uids[..]) ==> u in storeUids) {
      OutcomeIsFilter(old(uids[..]), storeUids, results);
    }
  }

  /** No two of the elements to sort are read as zero. */
  ghost predicate OneZero(toSort: seq<Uid>, list: seq<Uid>) {
    forall x, y :: x in toSort && y in toSort && Rank(list, x) == 0 == Rank(list, y) ==> x == y
  }

  lemma RankInjective(list: seq<Uid>, x: Uid, y: Uid)
    requires Rank(list, x) == Rank(list, y) > 0
    ensures x == y
  {
  }

  lemma InMultiset(t: seq<Uid>, u: seq<Uid>, x: Uid)
    requires multiset(t) == multiset(u)
    ensures x in t <==> x in u
  {
    assert x in t <==> x in multiset(t);
    assert x in u <==> x in multiset(u);
  }

  ghost predicate Ascending(rank: Uid -> int, t: seq<Uid>) {
    forall i, j :: 0 <= i < j < |t| ==> rank(t[i]) <= rank(t[j])
  }

  ghost predicate TellsApart(rank: Uid -> int, t: seq<Uid>) {
    forall x, y :: x in t && y in t && rank(x) == rank(y) ==> x == y
  }

  lemma HeadsEqual(rank: Uid -> int, t: seq<Uid>, u: seq<Uid>)
    requires multiset(t) == multiset(u) && Ascending(rank, t) && Ascending(rank, u) && TellsApart(rank, t)
    requires t != [] && u != []
    ensures t[0] == u[0]
  {
    InMultiset(t, u, t[0]);
    InMultiset(t, u, u[0]);
    var i :| 0 <= i < |t| && t[i] == u[0];
    var j :| 0 <= j < |u| && u[j] == t[0];
  }

  /** Two permutations ascending in a rank that tells their elements apart are equal. */
  lemma {:induction false} AscendingUnique(rank: Uid -> int, t: seq<Uid>, u: seq<Uid>)
    requires multiset(t) == multiset(u) && Ascending(rank, t) && Ascending(rank, u) && TellsApart(rank, t)
    ensures t == u
  {
    assert |t| == |multiset(t)| == |multiset(u)| == |u|;
    if t != [] {
      HeadsEqual(rank, t, u);
      assert t == [t[0]] + t[1..] && u == [t[0]] + u[1..];
      assert multiset(t[1..]) == multiset(t) - multiset{t[0]} == multiset(u[1..]);
      TailAscending(rank, t);
      TailAscending(rank, u);
      AscendingUnique(rank, t[1..], u[1..]);
    }
  }

  lemma TailAscending(rank: Uid -> int, t: seq<Uid>)
    requires t != [] && Ascending(rank, t)
    ensures Ascending(rank, t[1..]) && (TellsApart(rank, t) ==> TellsApart(rank, t[1..]))
  {
    assert forall x :: x in t[1..] ==> x in t;
  }

  lemma OutcomeUnique(list: seq<Uid>, t: seq<Uid>, u: seq<Uid>)
    requires RankSorted(list, t) && RankSorted(list, u) && multiset(t) == multiset(u)
    requires OneZero(t, list)
    ensures t == u
  {
    forall x, y | x in t && y in t && Rank(list, x) == Rank(list, y) ensures x == y {
      if Rank(list, x) > 0 {
        RankInjective(list, x, y);
      }
    }
    AscendingUnique((x: Uid) => Rank(list, x), t, u);
  }

  /** Two different elements read as zero can be swapped in any result. */
  lemma SwapZeros(toSort: seq<Uid>, list: seq<Uid>, t: seq<Uid>, x: Uid, y: Uid) returns (u: seq<Uid>)
    requires Outcome(toSort, list, t) && x in toSort && y in toSort && x != y
    requires Rank(list, x) == 0 == Rank(list, y)
    ensures Outcome(toSort, list, u) && u != t
  {
    InMultiset(t, toSort, x);
    InMultiset(t, toSort, y);
    var i :| 0 <= i < |t| && t[i] == x;
    var j :| 0 <= j < |t| && t[j] == y;
    u := t[i := y][j := x];
    assert forall k :: 0 <= k < |t| ==> Rank(list, u[k]) == Rank(list, t[k]);
    assert u[i] == y;
  }

  /**
   The result is determined exactly when at most one of the sorted uids reads as zero,
   that is, at most one is absent from the list or the first of it.
   */
  lemma DeterminedIff(toSort: seq<Uid>, list: seq<Uid>)
    ensures (forall t, u :: Outcome(toSort, list, t) && Outcome(toSort, list, u) ==> t == u) <==> OneZero(toSort, list)
  {
    if OneZero(toSort, list) {
      forall t, u | Outcome(toSort, list, t) && Outcome(toSort, list, u) ensures t == u {
        forall x | x in t ensures x in toSort { InMultiset(t, toSort, x); }
        OutcomeUnique(list, t, u);
      }
    } else {
      var x, y :| x in toSort && y in toSort && Rank(list, x) == 0 == Rank(list, y) && x != y;
      var t := SomeOutcome(toSort, list);
      var u := SwapZeros(toSort, list, t, x, y);
    }
  }

  lemma SomeOutcome(toSort: seq<Uid>, list: seq<Uid>) returns (t: seq<Uid>)
    ensures Outcome(toSort, list, t)
  {
    var less := (x: Uid, y: Uid) => Rank(list, x) < Rank(list, y);
    StableSortCorrect(less, toSort);
    t := StableSort(less, toSort);
    forall i, j | 0 <= i < j < |t| ensures Rank(list, t[i]) <= Rank(list, t[j]) {
      assert !less(t[j], t[i]);
    }
  }

  lemma {:induction false} FilterRankSorted(list: seq<Uid>, n: nat, p: Uid -> bool)
    requires Distinct(list) && n <= |list|
    ensures RankSorted(list, Filter(list[n..], p))
    ensures forall i :: 0 <= i < |Filter(list[n..], p)| ==> Rank(list, Filter(list[n..], p)[i]) >= n
    decreases |list| - n
  {
    if n < |list| {
      assert list[n..][1..] == list[n + 1..];
      FilterRankSorted(list, n + 1, p);
      var i := LastIndex(list, list[n]);
    }
  }

  /**
   For duplicate-free uids all of which are in a duplicate-free list, every result the
   sort may give is the list restricted to those uids.
   */
  lemma OutcomeIsFilter(toSort: seq<Uid>, list: seq<Uid>, t: seq<Uid>)
    requires Distinct(toSort) && Distinct(list) && Outcome(toSort, list, t)
    requires forall u :: u in toSort ==> u in list
    ensures t == Filter(list, u => u in toSort)
  {
    var p := (u: Uid) => u in toSort;
    var f := Filter(list, p);
    assert list[0..] == list;
    FilterRankSorted(list, 0, p);
    FilterDistinct(list, p);
    forall x ensures x in f <==> x in toSort {
      FilterMember(list, p, x);
    }
    DistinctMultisets(f, toSort);
    forall x | x in t ensures x in toSort { InMultiset(t, toSort, x); }
    assert OneZero(t, list);
    OutcomeUnique(list, t, f);
  }

  lemma DistinctMultisets(s: seq<Uid>, t: seq<Uid>)
    requires Distinct(s) && Distinct(t) && forall x :: x in s <==> x in t
    ensures multiset(s) == multiset(t)
  {
    forall x ensures multiset(s)[x] == multiset(t)[x] {
      DistinctCount(s, x);
      DistinctCount(t, x);
    }
  }
}
