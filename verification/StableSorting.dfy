/**
 What a stable sort is, that there is exactly one result, and how two of them in a
 row compose.  This is the contract of the library's sort.SliceStable, on which
 worker/lib/sort.go rests.
 */
module StableSorting {
  import opened Collections

  type Less<!T> = (T, T) -> bool

  /** Asymmetric, and whatever lies between two ordered elements is ordered with one of them. */
  ghost predicate StrictWeakOrder<T(!new)>(less: Less<T>) {
    && (forall a, b :: less(a, b) ==> !less(b, a))
    && (forall a, b, c :: less(a, b) ==> less(a, c) || less(c, b))
  }

  predicate Equivalent<T>(less: Less<T>, a: T, b: T) {
    !less(a, b) && !less(b, a)
  }

  function Like<T>(less: Less<T>, x: T): T -> bool {
    y => Equivalent(less, x, y)
  }

  /** The elements of s that the order does not tell apart from x, in the order of s. */
  function Class<T>(less: Less<T>, x: T, s: seq<T>): seq<T> {
    Filter(s, Like(less, x))
  }

  ghost predicate Sorted<T>(less: Less<T>, s: seq<T>) {
    forall i, j :: 0 <= i < j < |s| ==> !less(s[j], s[i])
  }

  /** t is s sorted, equivalent elements keeping their order. */
  ghost predicate IsStableSort<T(!new)>(less: Less<T>, s: seq<T>, t: seq<T>) {
    Sorted(less, t) && forall x :: Class(less, x, t) == Class(less, x, s)
  }

  function Insert<T>(less: Less<T>, x: T, s: seq<T>): seq<T> {
    if s == [] || !less(s[0], x) then [x] + s
    else [s[0]] + Insert(less, x, s[1..])
  }

  function StableSort<T>(less: Less<T>, s: seq<T>): seq<T> {
    if s == [] then [] else Insert(less, s[0], StableSort(less, s[1..]))
  }

  /** Two elements in strict order are in different classes, so they may be swapped. */
  lemma SwapKeepsClass<T(!new)>(less: Less<T>, x: T, h: T, s: seq<T>, y: T)
    requires StrictWeakOrder(less) && less(h, x)
    ensures Class(less, y, [h] + ([x] + s)) == Class(less, y, [x] + ([h] + s))
  {
    FilterCons(x, s, Like(less, y));
    FilterCons(h, s, Like(less, y));
    FilterCons(h, [x] + s, Like(less, y));
    FilterCons(x, [h] + s, Like(less, y));
  }

  lemma {:induction false} InsertKeepsClass<T(!new)>(less: Less<T>, x: T, s: seq<T>, y: T)
    requires StrictWeakOrder(less)
    ensures Class(less, y, Insert(less, x, s)) == Class(less, y, [x] + s)
  {
    if s != [] && less(s[0], x) {
      InsertKeepsClass(less, x, s[1..], y);
      FilterCons(s[0], Insert(less, x, s[1..]), Like(less, y));
      FilterCons(s[0], [x] + s[1..], Like(less, y));
      SwapKeepsClass(less, x, s[0], s[1..], y);
      assert s == [s[0]] + s[1..];
    }
  }

  lemma {:induction false} InsertPermutes<T>(less: Less<T>, x: T, s: seq<T>)
    ensures multiset(Insert(less, x, s)) == multiset(s)[x := multiset(s)[x] + 1]
  {
    if s != [] && less(s[0], x) {
      InsertPermutes(less, x, s[1..]);
      assert s == [s[0]] + s[1..];
    }
  }

  lemma {:induction false} InsertSorted<T(!new)>(less: Less<T>, x: T, s: seq<T>)
    requires StrictWeakOrder(less) && Sorted(less, s)
    ensures Sorted(less, Insert(less, x, s))
  {
    if s != [] && less(s[0], x) {
      var r := Insert(less, x, s[1..]);
      InsertSorted(less, x, s[1..]);
      InsertPermutes(less, x, s[1..]);
      forall j | 0 <= j < |r| ensures !less(r[j], s[0]) {
        assert r[j] in multiset(r);
        assert r[j] == x || r[j] in s[1..];
      }
      assert Insert(less, x, s) == [s[0]] + r;
    }
  }

  /** The insertion sort above is a stable sort of its input. */
  lemma {:induction false} StableSortCorrect<T(!new)>(less: Less<T>, s: seq<T>)
    requires StrictWeakOrder(less)
    ensures IsStableSort(less, s, StableSort(less, s))
    ensures multiset(StableSort(less, s)) == multiset(s)
  {
    if s != [] {
      var t := StableSort(less, s[1..]);
      StableSortCorrect(less, s[1..]);
      InsertSorted(less, s[0], t);
      assert s == [s[0]] + s[1..];
      forall x ensures Class(less, x, Insert(less, s[0], t)) == Class(less, x, s) {
        InsertKeepsClass(less, s[0], t, x);
        FilterCons(s[0], t, Like(less, x));
        assert Class(less, x, t) == Class(less, x, s[1..]);
      }
      InsertPermutes(less, s[0], t);
    }
  }

  lemma HeadIsLeast<T(!new)>(less: Less<T>, s: seq<T>, y: T)
    requires StrictWeakOrder(less) && Sorted(less, s) && y in s
    ensures !less(y, s[0])
  {
  }

  lemma HeadHasClass<T(!new)>(less: Less<T>, s: seq<T>)
    requires StrictWeakOrder(less)
    ensures s != [] ==> exists x :: Class(less, x, s) != []
    ensures s == [] ==> forall x :: Class(less, x, s) == []
  {
    if s != [] {
      assert Class(less, s[0], s)[0] == s[0];
    }
  }

  lemma ClassTail<T>(less: Less<T>, x: T, a: T, t: seq<T>, u: seq<T>)
    requires Class(less, x, [a] + t) == Class(less, x, [a] + u)
    ensures Class(less, x, t) == Class(less, x, u)
  {
    FilterCons(a, t, Like(less, x));
    FilterCons(a, u, Like(less, x));
    if Equivalent(less, x, a) {
      assert Class(less, x, t) == Class(less, x, [a] + t)[1..];
      assert Class(less, x, u) == Class(less, x, [a] + u)[1..];
    } else {
      assert Class(less, x, t) == Class(less, x, [a] + t);
      assert Class(less, x, u) == Class(less, x, [a] + u);
    }
  }

  /** Any two stable sorts of one sequence are equal. */
  lemma {:induction false} StableSortUnique<T(!new)>(less: Less<T>, t: seq<T>, u: seq<T>)
    requires StrictWeakOrder(less) && Sorted(less, t) && Sorted(less, u)
    requires forall x :: Class(less, x, t) == Class(less, x, u)
    ensures t == u
  {
    if t == [] || u == [] {
      HeadHasClass(less, t);
      HeadHasClass(less, u);
    } else {
      var a, b := t[0], u[0];
      FilterMember(u, Like(less, a), a);
      FilterMember(t, Like(less, b), b);
      assert Class(less, a, t)[0] == a && Class(less, b, u)[0] == b;
      FilterMember(t, Like(less, a), a);
      FilterMember(u, Like(less, b), b);
      HeadIsLeast(less, t, b);
      HeadIsLeast(less, u, a);
      assert Equivalent(less, a, b);
      assert a == b by {
        assert Class(less, a, t) == Class(less, a, u);
      }
      assert t == [a] + t[1..] && u == [a] + u[1..];
      forall x ensures Class(less, x, t[1..]) == Class(less, x, u[1..]) {
        ClassTail(less, x, a, t[1..], u[1..]);
      }
      StableSortUnique(less, t[1..], u[1..]);
    }
  }

  /** So whatever a stable sorting routine computes is the result of the insertion sort. */
  lemma StableSortCharacterised<T(!new)>(less: Less<T>, s: seq<T>, t: seq<T>)
    requires StrictWeakOrder(less)
    ensures IsStableSort(less, s, t) <==> t == StableSort(less, s)
  {
    StableSortCorrect(less, s);
    if IsStableSort(less, s, t) {
      StableSortUnique(less, t, StableSort(less, s));
    }
  }

  /** First by the first order, and by the second where the first does not decide. */
  function Lexicographic<T>(first: Less<T>, second: Less<T>): Less<T> {
    (a, b) => first(a, b) || (!first(b, a) && second(a, b))
  }

  lemma LexicographicOrder<T(!new)>(first: Less<T>, second: Less<T>)
    requires StrictWeakOrder(first) && StrictWeakOrder(second)
    ensures StrictWeakOrder(Lexicographic(first, second))
  {
    var less := Lexicographic(first, second);
    forall a, b, c | less(a, b) ensures less(a, c) || less(c, b) {
      if !first(a, b) && !first(a, c) && !first(c, b) {
        assert first(c, a) ==> first(c, b) || first(b, a);
        assert first(b, c) ==> first(b, a) || first(a, c);
      }
    }
  }

  lemma {:induction false} FilterTwice<T>(s: seq<T>, p: T -> bool, q: T -> bool, r: T -> bool)
    requires forall x :: x in s ==> (r(x) <==> p(x) && q(x))
    ensures Filter(Filter(s, p), q) == Filter(s, r)
  {
    if s != [] {
      assert s == [s[0]] + s[1..];
      FilterTwice(s[1..], p, q, r);
      FilterAppend(if p(s[0]) then [s[0]] else [], Filter(s[1..], p), q);
    }
  }

  lemma {:induction false} FilterOfSorted<T(!new)>(less: Less<T>, s: seq<T>, p: T -> bool)
    requires Sorted(less, s)
    ensures Sorted(less, Filter(s, p))
  {
    if s != [] {
      FilterOfSorted(less, s[1..], p);
      forall j | 0 <= j < |Filter(s[1..], p)| ensures !less(Filter(s[1..], p)[j], s[0]) {
        FilterMember(s[1..], p, Filter(s[1..], p)[j]);
      }
    }
  }

  /**
   Sorting stably by the second order and then by the first is sorting once by the
   first with ties broken by the second.
   */
  lemma SortTwice<T(!new)>(first: Less<T>, second: Less<T>, s: seq<T>)
    requires StrictWeakOrder(first) && StrictWeakOrder(second)
    ensures StableSort(first, StableSort(second, s)) == StableSort(Lexicographic(first, second), s)
  {
    var both := Lexicographic(first, second);
    var m := StableSort(second, s);
    var t := StableSort(first, m);
    LexicographicOrder(first, second);
    StableSortCorrect(second, s);
    StableSortCorrect(first, m);
    forall i, j | 0 <= i < j < |t| ensures !both(t[j], t[i]) {
      if Equivalent(first, t[i], t[j]) {
        var i', j' := FilterKeepsOrder(t, Like(first, t[i]), i, j);
        FilterOfSorted(second, m, Like(first, t[i]));
        assert Class(first, t[i], t) == Class(first, t[i], m);
      }
    }
    forall x ensures Class(both, x, t) == Class(both, x, s) {
      var p, q, r := Like(first, x), Like(second, x), Like(both, x);
      FilterTwice(t, p, q, r);
      FilterTwice(m, p, q, r);
      FilterTwice(m, q, p, r);
      FilterTwice(s, q, p, r);
      assert Class(first, x, t) == Class(first, x, m);
      assert Class(second, x, m) == Class(second, x, s);
    }
    StableSortCharacterised(both, s, t);
  }

  /** Sorting by nothing changes nothing. */
  lemma {:induction false} SortByNothing<T(!new)>(s: seq<T>)
    ensures StableSort((a: T, b: T) => false, s) == s
  {
    if s != [] {
      SortByNothing(s[1..]);
      assert s == [s[0]] + s[1..];
    }
  }

  /** Sorting decorated elements by a decoration that reflects the order sorts the elements. */
  lemma {:induction false} SortDecorated<T(!new), D(!new)>(less: Less<T>, s: seq<T>, lessD: Less<D>, d: T -> D)
    requires forall a, b :: lessD(d(a), d(b)) == less(a, b)
    ensures StableSort(lessD, Map(s, d)) == Map(StableSort(less, s), d)
  {
    if s != [] {
      SortDecorated(less, s[1..], lessD, d);
      assert Map(s, d)[1..] == Map(s[1..], d);
      InsertDecorated(less, s[0], StableSort(less, s[1..]), lessD, d);
    } else {
      assert Map(s, d) == [] == Map(StableSort(less, s), d);
    }
  }

  lemma {:induction false} InsertDecorated<T(!new), D(!new)>(less: Less<T>, x: T, s: seq<T>, lessD: Less<D>, d: T -> D)
    requires forall a, b :: lessD(d(a), d(b)) == less(a, b)
    ensures Insert(lessD, d(x), Map(s, d)) == Map(Insert(less, x, s), d)
  {
    if s != [] && less(s[0], x) {
      InsertDecorated(less, x, s[1..], lessD, d);
      assert Map(s, d)[1..] == Map(s[1..], d);
      assert Insert(lessD, d(x), Map(s, d)) == [d(s[0])] + Insert(lessD, d(x), Map(s[1..], d));
      assert Map([s[0]] + Insert(less, x, s[1..]), d) == [d(s[0])] + Map(Insert(less, x, s[1..]), d);
    } else {
      assert Map([x] + s, d) == [d(x)] + Map(s, d);
    }
  }

  /**
   Stands for the library's sort.SliceStable.  By StableSortCharacterised any stable
   sorting routine meets this contract.
   */
  method SliceStable<T(!new)>(a: array<T>, less: Less<T>)
    modifies a
    ensures a[..] == StableSort(less, old(a[..]))
  {
    var sorted := StableSort(less, a[..]);
    SortedLength(less, a[..]);
    for i := 0 to a.Length
      invariant forall k :: 0 <= k < i ==> a[k] == sorted[k]
    {
      a[i] := sorted[i];
    }
    assert a[..] == sorted;
  }

  lemma {:induction false} SortedLength<T>(less: Less<T>, s: seq<T>)
    ensures |StableSort(less, s)| == |s|
  {
    if s != [] {
      SortedLength(less, s[1..]);
      InsertLength(less, s[0], StableSort(less, s[1..]));
    }
  }

  lemma {:induction false} InsertLength<T>(less: Less<T>, x: T, s: seq<T>)
    ensures |Insert(less, x, s)| == |s| + 1
  {
    if s != [] {
      InsertLength(less, x, s[1..]);
    }
  }
}
