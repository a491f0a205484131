/**
 Indices and the tabs they name: what the operations of TabOrder mean for the tabs
 themselves (lib/ui/tab.go).
 */
module TabIdentity {
  import opened Collections
  import opened TabOrder

  ghost predicate Valid(tabs: seq<Tab>, history: seq<int>) {
    forall i :: 0 <= i < |history| ==> 0 <= history[i] < |tabs|
  }

  /** The tabs a history names. */
  ghost function Named(tabs: seq<Tab>, history: seq<int>): (r: seq<int>)
    requires Valid(tabs, history)
    ensures |r| == |history|
  {
    seq(|history|, i requires 0 <= i < |history| => tabs[history[i]].id)
  }

  ghost predicate DistinctIds(tabs: seq<Tab>) {
    forall i, j :: 0 <= i < j < |tabs| ==> tabs[i].id != tabs[j].id
  }

  ghost function SelectedId(v: View): int
    requires InRange(v)
  {
    v.tabs[v.selected].id
  }

  // Moving

  lemma MovedElement<T>(s: seq<T>, from: nat, to: nat, k: nat)
    requires from < |s| && to < |s| && k < |s|
    ensures |MoveElement(s, from, to)| == |s| && 0 <= MovedIndex(from, to, k) < |s|
    ensures MoveElement(s, from, to)[MovedIndex(from, to, k)] == s[k]
  {
  }

  lemma MoveElementPermutes<T>(s: seq<T>, from: nat, to: nat)
    requires from < |s| && to < |s|
    ensures multiset(MoveElement(s, from, to)) == multiset(s)
    ensures RemoveAt(MoveElement(s, from, to), to) == RemoveAt(s, from)
  {
    var rest := RemoveAt(s, from);
    InsertedBack(rest, to, s[from]);
    InsertedBack(rest, from, s[from]);
    PutBack(s, from);
  }

  lemma PutBack<T>(s: seq<T>, i: nat)
    requires i < |s|
    ensures RemoveAt(s, i)[..i] + [s[i]] + RemoveAt(s, i)[i..] == s
  {
  }

  lemma InsertedBack<T>(rest: seq<T>, i: nat, x: T)
    requires i <= |rest|
    ensures var s := rest[..i] + [x] + rest[i..];
      multiset(s) == multiset(rest) + multiset{x} && RemoveAt(s, i) == rest
  {
    assert rest == rest[..i] + rest[i..];
    assert RemoveAt(rest[..i] + [x] + rest[i..], i) == rest;
  }

  /**
   MoveTab reorders the tabs and nothing else: the moved tab is where it was asked to be,
   the others keep their order, and the selection and every history entry still name the
   tabs they named.
   */
  lemma MoveKeepsIdentity(v: View, to: int)
    requires InRange(v) && Valid(v.tabs, v.history)
    ensures var w := MoveTab(v, to);
      && InRange(w) && Valid(w.tabs, w.history)
      && w.selected == (if to < 0 then 0 else if to >= |v.tabs| then |v.tabs| - 1 else to)
      && SelectedId(w) == SelectedId(v)
      && Named(w.tabs, w.history) == Named(v.tabs, v.history)
      && multiset(w.tabs) == multiset(v.tabs)
      && RemoveAt(w.tabs, w.selected) == RemoveAt(v.tabs, v.selected)
  {
    var t := ClampTo(to, |v.tabs|);
    MovedElement(v.tabs, v.selected, t, v.selected);
    MoveElementPermutes(v.tabs, v.selected, t);
    MovedHistory(v.tabs, v.history, v.selected, t);
  }

  lemma MovedHistory(tabs: seq<Tab>, history: seq<int>, from: nat, to: nat)
    requires Valid(tabs, history) && from < |tabs| && to < |tabs|
    ensures var moved := Map(history, (h: int) => MovedIndex(from, to, h));
      Valid(MoveElement(tabs, from, to), moved) && Named(MoveElement(tabs, from, to), moved) == Named(tabs, history)
  {
    forall i | 0 <= i < |history|
      ensures 0 <= MovedIndex(from, to, history[i]) < |MoveElement(tabs, from, to)|
      ensures MoveElement(tabs, from, to)[MovedIndex(from, to, history[i])] == tabs[history[i]]
    {
      MovedElement(tabs, from, to, history[i]);
    }
  }

  // Closing

  lemma CollapseSnoc(s: seq<int>, x: int)
    ensures Collapse(s + [x]) == CollapseOnto(Collapse(s), x)
  {
    assert (s + [x])[..|s|] == s;
  }

  lemma {:induction false} CollapseMembers(s: seq<int>)
    ensures forall x :: x in Collapse(s) ==> x in s
  {
    if s != [] {
      CollapseMembers(s[..|s| - 1]);
      assert s == s[..|s| - 1] + [s[|s| - 1]];
    }
  }

  ghost predicate NoRepeats(s: seq<int>) {
    forall i :: 0 <= i < |s| - 1 ==> s[i] != s[i + 1]
  }

  lemma {:induction false} CollapseRepeat(a: seq<int>, x: int, b: seq<int>)
    ensures Collapse(a + [x] + [x] + b) == Collapse(a + [x] + b)
  {
    if b == [] {
      assert a + [x] + [x] + [] == a + [x] + [x] && a + [x] + [] == a + [x];
      CollapseSnoc(a, x);
      CollapseSnoc(a + [x], x);
    } else {
      var front, y := b[..|b| - 1], b[|b| - 1];
      assert b == front + [y];
      Assoc(a + [x] + [x], front, [y]);
      Assoc(a + [x], front, [y]);
      CollapseRepeat(a, x, front);
      CollapseSnoc(a + [x] + [x] + front, y);
      CollapseSnoc(a + [x] + front, y);
    }
  }

  lemma {:induction false} NoneRepeats(s: seq<int>)
    ensures NoRepeats(Collapse(s))
    ensures NoRepeats(s) ==> Collapse(s) == s
  {
    if s != [] {
      var front, x := s[..|s| - 1], s[|s| - 1];
      assert s == front + [x];
      NoneRepeats(front);
      assert NoRepeats(s) ==> NoRepeats(front);
    }
  }

  lemma OneOfTwo(s: seq<int>, i: nat)
    requires i < |s| - 1 && s[i] == s[i + 1]
    ensures Collapse(s) == Collapse(RemoveAt(s, i))
  {
    var a, x, b := s[..i], s[i], s[i + 2..];
    assert s == a + [x] + [x] + b;
    assert RemoveAt(s, i) == a + [x] + b;
    CollapseRepeat(a, x, b);
  }

  /**
   What collapsing is: nothing stands beside its equal, what had no such repeats is as it
   was, and one of two equal neighbours, wherever they are, makes no difference.
   */
  lemma CollapseIs(s: seq<int>)
    ensures NoRepeats(Collapse(s))
    ensures NoRepeats(s) ==> Collapse(s) == s
    ensures forall i :: 0 <= i < |s| - 1 && s[i] == s[i + 1] ==> Collapse(s) == Collapse(RemoveAt(s, i))
  {
    NoneRepeats(s);
    forall i | 0 <= i < |s| - 1 && s[i] == s[i + 1] ensures Collapse(s) == Collapse(RemoveAt(s, i)) {
      OneOfTwo(s, i);
    }
  }

  lemma CollapseOntoMapped(c: seq<int>, x: int, f: int -> int)
    requires c != [] && f(c[|c| - 1]) == f(x) ==> c[|c| - 1] == x
    ensures Map(CollapseOnto(c, x), f) == CollapseOnto(Map(c, f), f(x))
  {
    MapAppend(c, [x], f);
    assert Map([x], f) == [f(x)];
  }

  lemma {:induction false} CollapseInjective(s: seq<int>, f: int -> int)
    requires forall x, y :: x in s && y in s && f(x) == f(y) ==> x == y
    ensures Map(Collapse(s), f) == Collapse(Map(s, f))
  {
    if s == [] {
      assert Map(Collapse(s), f) == [] == Collapse(Map(s, f));
    } else {
      var front, x := s[..|s| - 1], s[|s| - 1];
      assert s == front + [x];
      CollapseInjective(front, f);
      CollapseMembers(front);
      CollapseOntoMapped(Collapse(front), x, f);
      CollapseSnoc(front, x);
      MapAppend(front, [x], f);
      assert Map([x], f) == [f(x)];
      CollapseSnoc(Map(front, f), f(x));
    }
  }

  lemma {:induction false} FilterMapped(s: seq<int>, p: int -> bool, f: int -> int, q: int -> bool)
    requires forall x :: x in s ==> (p(x) <==> q(f(x)))
    ensures Map(Filter(s, p), f) == Filter(Map(s, f), q)
  {
    if s == [] {
      assert Map(Filter(s, p), f) == [] == Filter(Map(s, f), q);
    } else {
      var x, rest := s[0], s[1..];
      assert x in s && s == [x] + rest;
      FilterMapped(rest, p, f, q);
      FilterCons(x, rest, p);
      MapCons(x, rest, f);
      FilterCons(f(x), Map(rest, f), q);
      if p(x) {
        MapCons(x, Filter(rest, p), f);
      }
      assert [] + Filter(rest, p) == Filter(rest, p) && [] + Filter(Map(rest, f), q) == Filter(Map(rest, f), q);
    }
  }

  ghost function IdAt(tabs: seq<Tab>): int -> int {
    (h: int) => if 0 <= h < |tabs| then tabs[h].id else 0
  }

  lemma NamedIsMap(tabs: seq<Tab>, history: seq<int>)
    requires Valid(tabs, history)
    ensures Named(tabs, history) == Map(history, IdAt(tabs))
  {
  }

  /** Naming before and after a tab is taken out. */
  lemma ShiftedNames(tabs: seq<Tab>, history: seq<int>, i: nat)
    requires i < |tabs| && Valid(tabs, history) && DistinctIds(tabs)
    ensures Valid(RemoveAt(tabs, i), Map(Filter(history, Isnt(i)), ShiftedDown(i)))
    ensures Map(Map(Filter(history, Isnt(i)), ShiftedDown(i)), IdAt(RemoveAt(tabs, i))) ==
      Filter(Named(tabs, history), Isnt(tabs[i].id))
  {
    var kept, rest := Filter(history, Isnt(i)), RemoveAt(tabs, i);
    forall k | 0 <= k < |kept|
      ensures 0 <= ShiftedDown(i)(kept[k]) < |rest|
      ensures IdAt(rest)(ShiftedDown(i)(kept[k])) == IdAt(tabs)(kept[k])
    {
      FilterMember(history, Isnt(i), kept[k]);
      ShiftedName(tabs, i, kept[k]);
    }
    assert Map(Map(kept, ShiftedDown(i)), IdAt(rest)) == Map(kept, IdAt(tabs));
    forall x | x in history ensures Isnt(i)(x) <==> Isnt(tabs[i].id)(IdAt(tabs)(x)) {}
    FilterMapped(history, Isnt(i), IdAt(tabs), Isnt(tabs[i].id));
    NamedIsMap(tabs, history);
  }

  lemma ShiftedName(tabs: seq<Tab>, i: nat, h: int)
    requires i < |tabs| && 0 <= h < |tabs| && h != i
    ensures 0 <= ShiftedDown(i)(h) < |RemoveAt(tabs, i)|
    ensures IdAt(RemoveAt(tabs, i))(ShiftedDown(i)(h)) == IdAt(tabs)(h)
  {
  }

  lemma HistoryAfterClosing(tabs: seq<Tab>, history: seq<int>, i: nat)
    requires i < |tabs| && Valid(tabs, history) && DistinctIds(tabs)
    ensures DistinctIds(RemoveAt(tabs, i))
    ensures Valid(RemoveAt(tabs, i), RemoveFromHistory(history, i))
    ensures Named(RemoveAt(tabs, i), RemoveFromHistory(history, i)) ==
      Collapse(Filter(Named(tabs, history), Isnt(tabs[i].id)))
  {
    var rest := RemoveAt(tabs, i);
    var shifted := Map(Filter(history, Isnt(i)), ShiftedDown(i));
    ShiftedNames(tabs, history, i);
    CollapseInjective(shifted, IdAt(rest));
    CollapseMembers(shifted);
    forall k | 0 <= k < |Collapse(shifted)| ensures 0 <= Collapse(shifted)[k] < |rest| {
      assert Collapse(shifted)[k] in shifted;
    }
    NamedIsMap(rest, Collapse(shifted));
  }

  /**
   Closing a tab that is not selected: the selected tab stays selected, the other tabs
   keep their order, and the history, as tabs, is the old one without the closed tab and
   with adjacent repeats collapsed.
   */
  lemma CloseOther(v: View, i: nat)
    requires InRange(v) && Valid(v.tabs, v.history) && DistinctIds(v.tabs)
    requires i < |v.tabs| && i != v.selected
    ensures var w := RemoveIndex(v, i);
      && InRange(w) && Valid(w.tabs, w.history) && DistinctIds(w.tabs)
      && w.tabs == RemoveAt(v.tabs, i)
      && SelectedId(w) == SelectedId(v)
      && Named(w.tabs, w.history) == Collapse(Filter(Named(v.tabs, v.history), Isnt(v.tabs[i].id)))
  {
    HistoryAfterClosing(v.tabs, v.history, i);
  }

  /**
   Closing the selected tab goes back to the tab visited last before it, if the history
   still names one; otherwise the index stays where it is.  So the selection is in range
   exactly when there was such a tab or the closed tab was not the last in order.  In the
   history that tab gives way to the one that moved into the closed tab's place, visited
   or not, unless they are the same or there is none.
   */
  lemma CloseSelected(v: View)
    requires InRange(v) && Valid(v.tabs, v.history) && DistinctIds(v.tabs)
    ensures var w := RemoveIndex(v, v.selected);
      var before := Filter(Named(v.tabs, v.history), Isnt(SelectedId(v)));
      && w.tabs == RemoveAt(v.tabs, v.selected)
      && DistinctIds(w.tabs) && Valid(w.tabs, w.history)
      && (InRange(w) <==> before != [] || v.selected < |v.tabs| - 1)
      && (before != [] ==> SelectedId(w) == before[|before| - 1])
      && Named(w.tabs, w.history) ==
           if before == [] then []
           else AllButLast(Collapse(before)) + MovedUp(v, before[|before| - 1])
  {
    var i := v.selected;
    var h, rest := RemoveFromHistory(v.history, i), RemoveAt(v.tabs, i);
    var before := Filter(Named(v.tabs, v.history), Isnt(SelectedId(v)));
    HistoryAfterClosing(v.tabs, v.history, i);
    CollapseLast(before);
    assert Named(rest, h) == Collapse(before);
    GoingBack(View(rest, i, h));
  }

  function AllButLast(s: seq<int>): seq<int> {
    if s == [] then [] else s[..|s| - 1]
  }

  /** The tab that takes the place of the selected one when that is closed, unless it is the one gone back to. */
  function MovedUp(v: View, back: int): seq<int>
    requires InRange(v)
  {
    if v.selected < |v.tabs| - 1 && v.tabs[v.selected + 1].id != back then [v.tabs[v.selected + 1].id] else []
  }

  /** Selecting a tab: an index past the end means the last tab, and the tab left, if any, is remembered. */
  lemma SelectingRemembers(v: View, index: nat)
    requires InRange(v) && Valid(v.tabs, v.history)
    ensures var w := Select(v, index);
      && w.tabs == v.tabs && Valid(w.tabs, w.history)
      && w.selected == (if index < |v.tabs| then index else |v.tabs| - 1)
      && Named(w.tabs, w.history) == Named(v.tabs, v.history) + if w.selected == v.selected then [] else [SelectedId(v)]
  {
  }

  /** Going back selects the tab named last, which leaves the history; the index left behind enters it. */
  lemma GoingBack(v: View)
    requires Valid(v.tabs, v.history) && 0 <= v.selected <= |v.tabs| && DistinctIds(v.tabs)
    ensures var w := SelectPrevious(v);
      && w.tabs == v.tabs && Valid(w.tabs, w.history)
      && if v.history == [] then w == v
         else
           var names := Named(v.tabs, v.history);
           && w.selected == v.history[|v.history| - 1]
           && Named(w.tabs, w.history) ==
                names[..|names| - 1] +
                if InRange(v) && SelectedId(v) != names[|names| - 1] then [SelectedId(v)] else []
  {
  }

  lemma {:induction false} CollapseLast(s: seq<int>)
    ensures s == [] <==> Collapse(s) == []
    ensures s != [] ==> Collapse(s)[|Collapse(s)| - 1] == s[|s| - 1]
  {
  }

  // Pinning

  /** The pinned tabs come first, and remember slots that exist. */
  ghost predicate PinsRight(tabs: seq<Tab>) {
    && (forall i :: PinEnd(tabs) <= i < |tabs| ==> !tabs[i].pinned)
    && (forall i :: 0 <= i < |tabs| && tabs[i].pinned ==> tabs[i].slot >= 0)
  }

  /** Two lists agree but for remembered slots. */
  ghost predicate SameButSlots(a: seq<Tab>, b: seq<Tab>) {
    |a| == |b| && forall i :: 0 <= i < |a| ==> a[i].(slot := 0) == b[i].(slot := 0)
  }

  lemma PinEndOf(tabs: seq<Tab>, e: nat)
    requires e <= |tabs| && (forall i :: 0 <= i < e ==> tabs[i].pinned)
    requires forall i :: e <= i < |tabs| ==> !tabs[i].pinned
    ensures PinEnd(tabs) == e
  {
    PinEndIs(tabs, e);
  }

  lemma MarkedAt(v: View, k: nat)
    requires InRange(v) && k < |v.tabs|
    ensures Marked(v)[k] ==
      if k == v.selected then Narrowed(v.selected - PinEnd(v.tabs))(v.tabs[k]).(pinned := true, slot := v.selected - PinEnd(v.tabs))
      else Narrowed(v.selected - PinEnd(v.tabs))(v.tabs[k])
  {
  }

  /** What pinning does to the tab at each place. */
  lemma PinAt(v: View, k: nat)
    requires InRange(v) && PinsRight(v.tabs) && !v.tabs[v.selected].pinned && k < |v.tabs|
    ensures var e := PinEnd(v.tabs);
      var w := PinTab(v);
      && e <= v.selected && |w.tabs| == |v.tabs| && w.selected == e
      && w.tabs[MovedIndex(v.selected, e, k)] ==
           if k == v.selected then v.tabs[k].(pinned := true, slot := v.selected - e)
           else Narrowed(v.selected - e)(v.tabs[k])
  {
    var e := PinEnd(v.tabs);
    assert e <= v.selected && ClampTo(e, |v.tabs|) == e;
    MarkedAt(v, k);
    MovedElement(Marked(v), v.selected, e, k);
  }

  lemma PinnedAt(v: View, i: nat)
    requires InRange(v) && PinsRight(v.tabs) && !v.tabs[v.selected].pinned && i < |v.tabs|
    ensures |PinTab(v).tabs| == |v.tabs|
    ensures var t := PinTab(v).tabs[i];
      (t.pinned <==> i < PinEnd(v.tabs) + 1) && (t.pinned ==> t.slot >= 0)
  {
    var e := PinEnd(v.tabs);
    PinAt(v, v.selected);
    var k := MovedIndex(e, v.selected, i);
    assert MovedIndex(v.selected, e, k) == i;
    PinAt(v, k);
  }

  lemma PinKeepsPinsRight(v: View)
    requires InRange(v) && PinsRight(v.tabs)
    ensures PinsRight(PinTab(v).tabs)
    ensures !v.tabs[v.selected].pinned ==> PinEnd(PinTab(v).tabs) == PinEnd(v.tabs) + 1
  {
    if !v.tabs[v.selected].pinned {
      var tabs := PinTab(v).tabs;
      PinnedAt(v, v.selected);
      forall i | 0 <= i < |tabs|
        ensures (tabs[i].pinned <==> i < PinEnd(v.tabs) + 1) && (tabs[i].pinned ==> tabs[i].slot >= 0)
      {
        PinnedAt(v, i);
      }
      PinEndOf(tabs, PinEnd(v.tabs) + 1);
    }
  }

  /** What unpinning does to the tab at each place. */
  lemma UnpinAt(v: View, k: nat)
    requires InRange(v) && PinsRight(v.tabs) && v.tabs[v.selected].pinned && k < |v.tabs|
    ensures var to := ClampTo(v.tabs[v.selected].slot + PinEnd(v.tabs) - 1, |v.tabs|);
      var w := UnpinTab(v);
      && v.selected < PinEnd(v.tabs) <= to + 1 && |w.tabs| == |v.tabs| && w.selected == to
      && w.tabs[MovedIndex(v.selected, to, k)] ==
           if k == v.selected then v.tabs[k].(pinned := false) else OpenSlot(v, k)
  {
    var to := ClampTo(v.tabs[v.selected].slot + PinEnd(v.tabs) - 1, |v.tabs|);
    MovedElement(Freed(v), v.selected, to, k);
  }

  lemma UnpinKeepsPinsRight(v: View)
    requires InRange(v) && PinsRight(v.tabs)
    ensures PinsRight(UnpinTab(v).tabs)
  {
    if v.tabs[v.selected].pinned {
      var e := PinEnd(v.tabs);
      var to := ClampTo(v.tabs[v.selected].slot + e - 1, |v.tabs|);
      var w := UnpinTab(v);
      UnpinAt(v, v.selected);
      forall i | 0 <= i < |w.tabs|
        ensures (w.tabs[i].pinned <==> i < e - 1) && (w.tabs[i].pinned ==> w.tabs[i].slot >= 0)
      {
        var k := MovedIndex(to, v.selected, i);
        assert MovedIndex(v.selected, to, k) == i;
        UnpinAt(v, k);
      }
      PinEndOf(w.tabs, e - 1);
    }
  }

  /** A user's own move keeps the pinned tabs in front exactly when the tab stays on its side. */
  lemma MoveKeepsPinsRightIff(v: View, to: int)
    requires InRange(v) && PinsRight(v.tabs)
    ensures PinsRight(MoveTab(v, to).tabs) <==>
      (v.tabs[v.selected].pinned <==> ClampTo(to, |v.tabs|) < PinEnd(v.tabs))
  {
    var e, t, from := PinEnd(v.tabs), ClampTo(to, |v.tabs|), v.selected;
    var tabs := MoveTab(v, to).tabs;
    forall i | 0 <= i < |tabs|
      ensures 0 <= MovedIndex(t, from, i) < |v.tabs| && tabs[i] == v.tabs[MovedIndex(t, from, i)]
    {
      MovedElement(v.tabs, from, t, MovedIndex(t, from, i));
    }
    MovedPins(v.tabs, tabs, from, t);
  }

  lemma MovedPins(tabs: seq<Tab>, moved: seq<Tab>, from: nat, t: nat)
    requires PinsRight(tabs) && from < |tabs| == |moved| && t < |tabs|
    requires forall i :: 0 <= i < |tabs| ==> 0 <= MovedIndex(t, from, i) < |tabs| && moved[i] == tabs[MovedIndex(t, from, i)]
    ensures PinsRight(moved) <==> (tabs[from].pinned <==> t < PinEnd(tabs))
  {
    var e := PinEnd(tabs);
    assert moved[t] == tabs[from];
    if tabs[from].pinned <==> t < e {
      PinEndOf(moved, e);
    } else if tabs[from].pinned {
      PinnedBehind(moved, e - 1, t);
    } else {
      PinnedBehind(moved, t, t + 1);
    }
  }

  lemma PinnedBehind(tabs: seq<Tab>, i: nat, j: nat)
    requires i < j < |tabs| && !tabs[i].pinned && tabs[j].pinned
    ensures !PinsRight(tabs)
  {
  }

  /** No other pinned tab remembers the slot just after the one vacated. */
  ghost predicate NoAdjacentSlot(v: View)
    requires InRange(v)
  {
    forall i :: 0 <= i < |v.tabs| && v.tabs[i].pinned ==> v.tabs[i].slot != v.selected - PinEnd(v.tabs) + 1
  }

  /** A tab just pinned goes back to where it was. */
  lemma UnpinGoesBack(v: View)
    requires InRange(v) && PinsRight(v.tabs) && !v.tabs[v.selected].pinned
    ensures var w := PinTab(v);
      && InRange(w) && PinsRight(w.tabs) && w.tabs[w.selected].pinned
      && w.selected == PinEnd(v.tabs) == PinEnd(w.tabs) - 1
      && w.tabs[w.selected] == v.tabs[v.selected].(pinned := true, slot := v.selected - PinEnd(v.tabs))
      && ClampTo(w.tabs[w.selected].slot + PinEnd(w.tabs) - 1, |w.tabs|) == v.selected
  {
    PinAt(v, v.selected);
    PinKeepsPinsRight(v);
  }

  /** What is left of the slot of another tab, in a view w where the selected one is pinned. */
  lemma SlotReopened(v: View, w: View, k: nat, k': nat)
    requires InRange(v) && PinsRight(v.tabs) && !v.tabs[v.selected].pinned && k < |v.tabs| && k != v.selected
    requires InRange(w) && k' < |w.tabs| && w.selected == PinEnd(v.tabs) == PinEnd(w.tabs) - 1
    requires w.tabs[w.selected].slot == v.selected - PinEnd(v.tabs)
    requires k' == MovedIndex(v.selected, PinEnd(v.tabs), k)
    requires w.tabs[k'] == Narrowed(v.selected - PinEnd(v.tabs))(v.tabs[k])
    ensures OpenSlot(w, k') ==
              if v.tabs[k].pinned && v.tabs[k].slot == v.selected - PinEnd(v.tabs) + 1
              then v.tabs[k].(slot := v.tabs[k].slot - 1) else v.tabs[k]
  {
    assert k < PinEnd(v.tabs) <==> v.tabs[k].pinned;
  }

  /** Pinning and unpinning, place by place. */
  lemma PinUnpinAt(v: View, k: nat)
    requires InRange(v) && PinsRight(v.tabs) && !v.tabs[v.selected].pinned && k < |v.tabs|
    ensures |UnpinTab(PinTab(v)).tabs| == |v.tabs| && UnpinTab(PinTab(v)).selected == v.selected
    ensures UnpinTab(PinTab(v)).tabs[k] ==
      if k == v.selected then v.tabs[k].(slot := v.selected - PinEnd(v.tabs))
      else if v.tabs[k].pinned && v.tabs[k].slot == v.selected - PinEnd(v.tabs) + 1 then v.tabs[k].(slot := v.tabs[k].slot - 1)
      else v.tabs[k]
  {
    var e, w := PinEnd(v.tabs), PinTab(v);
    UnpinGoesBack(v);
    var k' := MovedIndex(v.selected, e, k);
    assert MovedIndex(e, v.selected, k') == k;
    PinAt(v, k);
    if k != v.selected {
      SlotReopened(v, w, k, k');
    }
    UnpinAt(w, k');
  }

  lemma MovedBack(history: seq<int>, from: int, to: int)
    ensures Map(Map(history, (h: int) => MovedIndex(from, to, h)), (h: int) => MovedIndex(to, from, h)) == history
  {
  }

  lemma PinUnpinHistory(v: View)
    requires InRange(v) && PinsRight(v.tabs) && !v.tabs[v.selected].pinned
    ensures UnpinTab(PinTab(v)).history == v.history
  {
    var e, w := PinEnd(v.tabs), PinTab(v);
    UnpinGoesBack(v);
    MovedBack(v.history, v.selected, e);
    assert ClampTo(e, |v.tabs|) == e;
    assert w.history == Map(v.history, (h: int) => MovedIndex(v.selected, e, h));
    assert UnpinTab(w).history == Map(w.history, (h: int) => MovedIndex(e, v.selected, h));
  }

  /**
   PinTab followed by UnpinTab restores the order, the pins, the selection and the whole
   history.  The slots the other pinned tabs remember are restored exactly when none of
   them was the slot just after the vacated one.
   */
  lemma PinThenUnpin(v: View)
    requires InRange(v) && PinsRight(v.tabs) && !v.tabs[v.selected].pinned
    ensures SameButSlots(UnpinTab(PinTab(v)).tabs, v.tabs)
    ensures UnpinTab(PinTab(v)).selected == v.selected && UnpinTab(PinTab(v)).history == v.history
    ensures (forall i :: 0 <= i < |v.tabs| && i != v.selected ==> UnpinTab(PinTab(v)).tabs[i] == v.tabs[i]) <==> NoAdjacentSlot(v)
  {
    PinUnpinHistory(v);
    PinUnpinAt(v, v.selected);
    var u := UnpinTab(PinTab(v)).tabs;
    PinUnpinTabs(v, u);
  }

  lemma PinUnpinTabs(v: View, u: seq<Tab>)
    requires InRange(v) && PinsRight(v.tabs) && !v.tabs[v.selected].pinned && u == UnpinTab(PinTab(v)).tabs
    ensures SameButSlots(u, v.tabs)
    ensures (forall i :: 0 <= i < |v.tabs| && i != v.selected ==> u[i] == v.tabs[i]) <==> NoAdjacentSlot(v)
  {
    var d := v.selected - PinEnd(v.tabs);
    PinUnpinAt(v, v.selected);
    forall k | 0 <= k < |v.tabs|
      ensures u[k].(slot := 0) == v.tabs[k].(slot := 0)
      ensures k != v.selected ==> (u[k] == v.tabs[k] <==> !(v.tabs[k].pinned && v.tabs[k].slot == d + 1))
    {
      PinUnpinAt(v, k);
    }
  }

  // Runs

  datatype Event =
    | Add(id: int, content: int)
    | Close(content: int)
    | Substitute(source: int, id: int, content: int)   // Replace
    | SelectIndex(index: int)
    | Previous
    | Move(to: int)
    | Pin
    | Unpin

  /** What the source needs not to fault, and tabs that are all different. */
  ghost predicate Enabled(v: View, e: Event) {
    match e
    case Add(id, _) => forall i :: 0 <= i < |v.tabs| ==> v.tabs[i].id != id
    case Close(_) => true
    case Substitute(_, id, _) => forall i :: 0 <= i < |v.tabs| ==> v.tabs[i].id != id
    case SelectIndex(index) => index >= 0 && v.tabs != []
    case Previous => true
    case Move(_) => InRange(v)
    case Pin => InRange(v)
    case Unpin => InRange(v)
  }

  ghost function Apply(v: View, e: Event): View
    requires Enabled(v, e)
  {
    match e
    case Add(id, content) => v.(tabs := v.tabs + [Tab(id, content, false, 0)])
    case Close(content) => Remove(v, content)
    case Substitute(source, id, content) => Replace(v, source, id, content)
    case SelectIndex(index) => Select(v, index)
    case Previous => SelectPrevious(v)
    case Move(to) => MoveTab(v, to)
    case Pin => PinTab(v)
    case Unpin => UnpinTab(v)
  }

  ghost function Exec(run: seq<Event>): Option<View> {
    if run == [] then Some(View([], 0, []))
    else
      var before := Exec(run[..|run| - 1]);
      if before.Some? && Enabled(before.value, run[|run| - 1])
      then Some(Apply(before.value, run[|run| - 1]))
      else None
  }

  /** Out of range the selection is at most one past the end, as after closing the last tab of all. */
  ghost predicate Names(v: View) {
    DistinctIds(v.tabs) && Valid(v.tabs, v.history) && 0 <= v.selected <= |v.tabs|
  }

  lemma RemoveKeepsPinsRight(tabs: seq<Tab>, i: nat)
    requires PinsRight(tabs) && i < |tabs|
    ensures PinsRight(RemoveAt(tabs, i))
  {
    var e := PinEnd(tabs);
    var rest := RemoveAt(tabs, i);
    PinEndOf(rest, if i < e then e - 1 else e);
  }

  lemma {:induction false} CloseKeepsNames(v: View, i: nat)
    requires Names(v) && i < |v.tabs|
    ensures Names(RemoveIndex(v, i))
  {
    HistoryAfterClosing(v.tabs, v.history, i);
    if i == v.selected {
      GoingBack(v.(tabs := RemoveAt(v.tabs, i), history := RemoveFromHistory(v.history, i)));
    }
  }

  lemma MovedIds(tabs: seq<Tab>, from: nat, t: nat)
    requires from < |tabs| && t < |tabs| && DistinctIds(tabs)
    ensures DistinctIds(MoveElement(tabs, from, t))
  {
    var moved := MoveElement(tabs, from, t);
    forall i, j | 0 <= i < j < |moved| ensures moved[i].id != moved[j].id {
      var a, b := MovedIndex(t, from, i), MovedIndex(t, from, j);
      MovedElement(tabs, from, t, a);
      MovedElement(tabs, from, t, b);
      assert MovedIndex(from, t, a) == i && MovedIndex(from, t, b) == j;
    }
  }

  /** A move keeps ids distinct and history entries in range, whatever its slots and pins. */
  lemma MoveKeepsNames(v: View, to: int)
    requires Names(v) && InRange(v)
    ensures Names(MoveTab(v, to))
  {
    var t := ClampTo(to, |v.tabs|);
    MovedElement(v.tabs, v.selected, t, v.selected);
    MovedIds(v.tabs, v.selected, t);
  }

  lemma SameIds(a: seq<Tab>, b: seq<Tab>)
    requires |a| == |b| && DistinctIds(a) && forall i :: 0 <= i < |a| ==> b[i].id == a[i].id
    ensures DistinctIds(b)
  {
    forall i, j | 0 <= i < j < |b| ensures b[i].id != b[j].id {
      assert a[i].id != a[j].id;
    }
  }

  lemma PinKeepsNames(v: View)
    requires Names(v) && InRange(v)
    ensures Names(PinTab(v))
  {
    var tabs := Marked(v);
    forall k | 0 <= k < |v.tabs| ensures tabs[k].id == v.tabs[k].id {
      MarkedAt(v, k);
    }
    SameIds(v.tabs, tabs);
    MoveKeepsNames(v.(tabs := tabs), PinEnd(v.tabs));
  }

  lemma FreedAt(v: View, k: nat)
    requires InRange(v) && k < |v.tabs|
    ensures Freed(v)[k].id == v.tabs[k].id
  {
  }

  lemma UnpinKeepsNames(v: View)
    requires Names(v) && InRange(v)
    ensures Names(UnpinTab(v))
  {
    var tabs := Freed(v);
    forall k | 0 <= k < |v.tabs| ensures tabs[k].id == v.tabs[k].id {
      FreedAt(v, k);
    }
    SameIds(v.tabs, tabs);
    MoveKeepsNames(v.(tabs := tabs), v.tabs[v.selected].slot + PinEnd(v.tabs) - 1);
  }

  /** The tab taking the place of another, in the names a history has. */
  function Renamed(was: int, id: int): int -> int {
    (n: int) => if n == was then id else n
  }

  /**
   Replace.  The new tab is selected and stands where the old one stood, also wherever the
   history named that; the tab selected before it enters the history if it is another.
   */
  lemma ReplaceIdentity(v: View, i: nat, id: int, content: int)
    requires InRange(v) && Valid(v.tabs, v.history) && DistinctIds(v.tabs) && i < |v.tabs|
    ensures var w := ReplaceAt(v, i, id, content);
      && InRange(w) && w.selected == i && SelectedId(w) == id
      && |w.tabs| == |v.tabs| && (forall k :: 0 <= k < |v.tabs| && k != i ==> w.tabs[k] == v.tabs[k])
      && Valid(w.tabs, w.history)
      && Named(w.tabs, w.history) ==
           Map(Named(v.tabs, v.history), Renamed(v.tabs[i].id, id)) + if i == v.selected then [] else [SelectedId(v)]
  {
  }

  lemma ReplaceKeepsNames(v: View, i: nat, id: int, content: int)
    requires Names(v) && i < |v.tabs| && forall k :: 0 <= k < |v.tabs| ==> v.tabs[k].id != id
    ensures Names(ReplaceAt(v, i, id, content))
  {
  }

  /** The pinned tabs stay in front exactly if none but the last of them is replaced. */
  lemma ReplaceKeepsPinsRightIff(v: View, i: nat, id: int, content: int)
    requires PinsRight(v.tabs) && i < |v.tabs|
    ensures PinsRight(ReplaceAt(v, i, id, content).tabs) <==> i + 1 >= PinEnd(v.tabs)
  {
    var e := PinEnd(v.tabs);
    var tabs := ReplaceAt(v, i, id, content).tabs;
    assert tabs == v.tabs[i := Tab(id, content, false, 0)];
    if i + 1 < e {
      PinnedBehind(tabs, i, i + 1);
    } else {
      PinEndOf(tabs, if i < e then i else e);
    }
  }

  lemma {:induction false} StepKeepsNames(v: View, e: Event)
    requires Names(v) && Enabled(v, e)
    ensures Names(Apply(v, e))
  {
    match e
    case Add(_, _) =>
    case Close(content) =>
      FoundBelow(v.tabs, content);
      if FindContent(v.tabs, content).Some? {
        CloseKeepsNames(v, FindContent(v.tabs, content).value);
      }
    case Substitute(source, id, content) =>
      FoundBelow(v.tabs, source);
      if FindContent(v.tabs, source).Some? {
        ReplaceKeepsNames(v, FindContent(v.tabs, source).value, id, content);
      }
    case SelectIndex(_) =>
    case Previous => GoingBack(v);
    case Move(to) => MoveKeepsNames(v, to);
    case Pin => PinKeepsNames(v);
    case Unpin => UnpinKeepsNames(v);
  }

  /**
   Over every run the tabs are all different, history entries name tabs, and the selection
   is at most one past the last.
   */
  lemma {:induction false} RunKeepsNames(run: seq<Event>)
    requires Exec(run).Some?
    ensures Names(Exec(run).value)
  {
    if run != [] {
      RunKeepsNames(run[..|run| - 1]);
      StepKeepsNames(Exec(run[..|run| - 1]).value, run[|run| - 1]);
    }
  }

  /**
   A move stays on its side of the pinned tabs, and of these none but the last is replaced,
   by a tab that is not pinned.
   */
  ghost predicate StaysOnSide(v: View, e: Event)
    requires Enabled(v, e)
  {
    match e
    case Move(to) => v.tabs[v.selected].pinned <==> ClampTo(to, |v.tabs|) < PinEnd(v.tabs)
    case Substitute(source, _, _) => FindContent(v.tabs, source).Some? ==> FindContent(v.tabs, source).value + 1 >= PinEnd(v.tabs)
    case _ => true
  }

  lemma SelectingKeepsTabs(v: View, index: int)
    ensures Select(v, index).tabs == v.tabs && SelectPrevious(v).tabs == v.tabs
  {
  }

  /**
   A step keeps the pinned tabs in front exactly if it neither moves a tab across their
   end nor puts a new one among them.
   */
  lemma {:induction false} StepKeepsPinsRightIff(v: View, e: Event)
    requires Names(v) && PinsRight(v.tabs) && Enabled(v, e)
    ensures PinsRight(Apply(v, e).tabs) <==> StaysOnSide(v, e)
  {
    match e
    case Add(_, _) => PinEndOf(Apply(v, e).tabs, PinEnd(v.tabs));
    case Close(content) =>
      FoundBelow(v.tabs, content);
      if FindContent(v.tabs, content).Some? {
        var i := FindContent(v.tabs, content).value;
        RemoveKeepsPinsRight(v.tabs, i);
        SelectingKeepsTabs(v.(tabs := RemoveAt(v.tabs, i), history := RemoveFromHistory(v.history, i)), 0);
      }
    case Substitute(source, id, content) =>
      FoundBelow(v.tabs, source);
      if FindContent(v.tabs, source).Some? {
        ReplaceKeepsPinsRightIff(v, FindContent(v.tabs, source).value, id, content);
      }
    case SelectIndex(index) => SelectingKeepsTabs(v, index);
    case Previous => SelectingKeepsTabs(v, 0);
    case Move(to) => MoveKeepsPinsRightIff(v, to);
    case Pin => PinKeepsPinsRight(v);
    case Unpin => UnpinKeepsPinsRight(v);
  }

  ghost predicate AllStayOnSide(run: seq<Event>)
    requires Exec(run).Some?
    decreases |run|
  {
    run == [] ||
      (AllStayOnSide(run[..|run| - 1]) && StaysOnSide(Exec(run[..|run| - 1]).value, run[|run| - 1]))
  }

  /** Over every run of such steps the pinned tabs stay in front and slots stay meaningful. */
  lemma {:induction false} RunKeepsPinsRight(run: seq<Event>)
    requires Exec(run).Some? && AllStayOnSide(run)
    ensures PinsRight(Exec(run).value.tabs)
  {
    if run != [] {
      var front := run[..|run| - 1];
      RunKeepsPinsRight(front);
      RunKeepsNames(front);
      StepKeepsPinsRightIff(Exec(front).value, run[|run| - 1]);
    }
  }

  /** An instance: the pinned tab remembers place 1, and ends up remembering place 0. */
  lemma NeighbouringSlotIsLost()
    ensures var v := View([Tab(1, 1, true, 1), Tab(2, 2, false, 0), Tab(3, 3, false, 0)], 1, []);
      PinsRight(v.tabs) && UnpinTab(PinTab(v)).tabs[0] == Tab(1, 1, true, 0)
  {
    var v := View([Tab(1, 1, true, 1), Tab(2, 2, false, 0), Tab(3, 3, false, 0)], 1, []);
    PinEndOf(v.tabs, 1);
    PinUnpinAt(v, 0);
  }
}
