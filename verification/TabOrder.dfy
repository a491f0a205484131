/**
 The tabs of the window (lib/ui/tab.go): their order, which one is selected, the
 history of selections, and pinning.  Everything is kept as indices into the order, so
 the question is whether each operation keeps the indices naming the same tabs.
 */
module TabOrder {
  import opened Collections

  /** id stands for the tab itself, the pointer of the source; slot for indexBeforePin. */
  datatype Tab = Tab(id: int, content: int, pinned: bool, slot: int)

  datatype View = View(tabs: seq<Tab>, selected: int, history: seq<int>)

  predicate InRange(v: View) {
    0 <= v.selected < |v.tabs|
  }

  // Moving

  /** Taking the element at one index out and putting it back at another. */
  function MoveElement<T>(s: seq<T>, from: nat, to: nat): seq<T>
    requires from < |s| && to < |s|
  {
    var rest := RemoveAt(s, from);
    rest[..to] + [s[from]] + rest[to..]
  }

  /** Where index h goes. */
  function MovedIndex(from: int, to: int, h: int): int {
    if h == from then to
    else if from < h <= to then h - 1
    else if to <= h < from then h + 1
    else h
  }

  function ClampTo(to: int, n: nat): nat
    requires n > 0
  {
    if to < 0 then 0 else if to >= n then n - 1 else to
  }

  function MoveTab(v: View, to: int): View
    requires InRange(v)
  {
    var t := ClampTo(to, |v.tabs|);
    View(MoveElement(v.tabs, v.selected, t), t, Map(v.history, (h: int) => MovedIndex(v.selected, t, h)))
  }

  // Closing

  /** Adjacent repeats become one. */
  function Collapse(s: seq<int>): seq<int> {
    if s == [] then []
    else CollapseOnto(Collapse(s[..|s| - 1]), s[|s| - 1])
  }

  function Isnt(index: int): int -> bool {
    (h: int) => h != index
  }

  function ShiftedDown(index: int): int -> int {
    (h: int) => if h > index then h - 1 else h
  }

  /** The closed tab's entries go, later indices move down, and repeats collapse. */
  function RemoveFromHistory(history: seq<int>, index: int): seq<int> {
    Collapse(Map(Filter(history, Isnt(index)), ShiftedDown(index)))
  }

  function CollapseOnto(c: seq<int>, x: int): seq<int> {
    if c != [] && c[|c| - 1] == x then c else c + [x]
  }

  lemma HistoryStep(front: seq<int>, h: int, index: int)
    ensures RemoveFromHistory(front + [h], index) ==
      if h == index then RemoveFromHistory(front, index)
      else CollapseOnto(RemoveFromHistory(front, index), ShiftedDown(index)(h))
    ensures front == [] ==> RemoveFromHistory(front, index) == []
  {
    FilterAppend(front, [h], Isnt(index));
    var kept := Filter(front, Isnt(index));
    assert Filter([h], Isnt(index)) == if h == index then [] else [h];
    if h != index {
      assert Map(kept + [h], ShiftedDown(index)) == Map(kept, ShiftedDown(index)) + [ShiftedDown(index)(h)];
    } else {
      assert Filter(front + [h], Isnt(index)) == kept;
    }
    if front == [] {
      assert Map(kept, ShiftedDown(index)) == [];
    }
  }

  lemma HistoryNext(hist: seq<int>, i: nat, index: int)
    requires i < |hist|
    ensures RemoveFromHistory(hist[..i + 1], index) ==
      if hist[i] == index then RemoveFromHistory(hist[..i], index)
      else CollapseOnto(RemoveFromHistory(hist[..i], index), ShiftedDown(index)(hist[i]))
    ensures i == 0 ==> RemoveFromHistory(hist[..i], index) == []
  {
    assert hist[..i + 1] == hist[..i] + [hist[i]];
    HistoryStep(hist[..i], hist[i], index);
  }

  function FindContent(tabs: seq<Tab>, content: int): Option<nat> {
    if tabs == [] then None
    else if tabs[0].content == content then Some(0)
    else
      match FindContent(tabs[1..], content)
      case None => None
      case Some(i) => Some(i + 1)
  }

  function Select(v: View, index: int): View {
    var i := if index >= |v.tabs| then |v.tabs| - 1 else index;
    if v.selected == i then v
    else v.(selected := i, history := if v.selected < |v.tabs| then v.history + [v.selected] else v.history)
  }

  function SelectPrevious(v: View): View {
    if v.history == [] then v
    else Select(v.(history := v.history[..|v.history| - 1]), v.history[|v.history| - 1])
  }

  function RemoveIndex(v: View, i: nat): View
    requires i < |v.tabs|
  {
    var w := v.(tabs := RemoveAt(v.tabs, i), history := RemoveFromHistory(v.history, i));
    if i == v.selected then SelectPrevious(w)
    else if i < v.selected then w.(selected := v.selected - 1)
    else w
  }

  function Remove(v: View, content: int): View {
    match FindContent(v.tabs, content)
    case None => v
    case Some(i) => FoundBelow(v.tabs, content); RemoveIndex(v, i)
  }

  lemma {:induction false} FoundBelow(tabs: seq<Tab>, content: int)
    ensures FindContent(tabs, content).Some? ==>
      FindContent(tabs, content).value < |tabs| && tabs[FindContent(tabs, content).value].content == content
    ensures FindContent(tabs, content).None? ==> forall i :: 0 <= i < |tabs| ==> tabs[i].content != content
  {
    if tabs != [] {
      FoundBelow(tabs[1..], content);
      assert tabs == [tabs[0]] + tabs[1..];
    }
  }

  /** A new tab, not pinned, in the place of another, and selected. */
  function ReplaceAt(v: View, i: nat, id: int, content: int): View
    requires i < |v.tabs|
  {
    Select(v.(tabs := v.tabs[i := Tab(id, content, false, 0)]), i)
  }

  function Replace(v: View, source: int, id: int, content: int): View {
    match FindContent(v.tabs, source)
    case None => v
    case Some(i) => FoundBelow(v.tabs, source); ReplaceAt(v, i, id, content)
  }

  // Pinning

  /** The first index that is not pinned. */
  function PinEnd(tabs: seq<Tab>): (e: nat)
    ensures e <= |tabs|
    ensures forall i :: 0 <= i < e ==> tabs[i].pinned
    ensures e < |tabs| ==> !tabs[e].pinned
  {
    if tabs == [] || !tabs[0].pinned then 0 else 1 + PinEnd(tabs[1..])
  }

  /** Pinning a tab closes the slot it leaves. */
  function Narrowed(d: int): Tab -> Tab {
    (t: Tab) => if t.pinned && t.slot > d then t.(slot := t.slot - 1) else t
  }

  function Marked(v: View): (tabs: seq<Tab>)
    requires InRange(v)
    ensures |tabs| == |v.tabs|
  {
    var d := v.selected - PinEnd(v.tabs);
    var narrowed := Map(v.tabs, Narrowed(d));
    narrowed[v.selected := narrowed[v.selected].(pinned := true, slot := d)]
  }

  function PinTab(v: View): View
    requires InRange(v)
  {
    if v.tabs[v.selected].pinned then v else MoveTab(v.(tabs := Marked(v)), PinEnd(v.tabs))
  }

  /** Unpinning a tab opens its slot again, for the pinned tabs. */
  function OpenSlot(v: View, i: nat): Tab
    requires InRange(v) && i < |v.tabs|
  {
    var t := v.tabs[i];
    if i < PinEnd(v.tabs) && i != v.selected && t.slot > v.tabs[v.selected].slot then t.(slot := t.slot + 1) else t
  }

  function Spread(v: View): (tabs: seq<Tab>)
    requires InRange(v)
    ensures |tabs| == |v.tabs|
  {
    seq(|v.tabs|, i requires 0 <= i < |v.tabs| => OpenSlot(v, i))
  }

  function Freed(v: View): (tabs: seq<Tab>)
    requires InRange(v)
    ensures |tabs| == |v.tabs|
  {
    Spread(v)[v.selected := Spread(v)[v.selected].(pinned := false)]
  }

  function UnpinTab(v: View): View
    requires InRange(v)
  {
    if !v.tabs[v.selected].pinned then v
    else MoveTab(v.(tabs := Freed(v)), v.tabs[v.selected].slot + PinEnd(v.tabs) - 1)
  }

  lemma {:induction false} PinEndIs(tabs: seq<Tab>, e: nat)
    requires e <= |tabs| && (forall i :: 0 <= i < e ==> tabs[i].pinned) && (e < |tabs| ==> !tabs[e].pinned)
    ensures PinEnd(tabs) == e
  {
    var f := PinEnd(tabs);
    assert f < |tabs| ==> !tabs[f].pinned;
  }

  lemma {:induction false} FirstFound(tabs: seq<Tab>, content: int, i: nat)
    requires i < |tabs| && tabs[i].content == content && forall k :: 0 <= k < i ==> tabs[k].content != content
    ensures FindContent(tabs, content) == Some(i)
  {
    if i > 0 {
      FirstFound(tabs[1..], content, i - 1);
    }
  }

  /** The two ways the source shifts a stretch of the list. */
  lemma MoveSlices<T>(s: seq<T>, from: nat, to: nat)
    requires from < |s| && to < |s|
    ensures to > from ==> MoveElement(s, from, to) == s[..from] + s[from + 1..to + 1] + [s[from]] + s[to + 1..]
    ensures to < from ==> MoveElement(s, from, to) == s[..to] + [s[from]] + s[to..from] + s[from + 1..]
  {
  }

  lemma MoveNowhere(v: View)
    requires InRange(v)
    ensures MoveElement(v.tabs, v.selected, v.selected) == v.tabs
    ensures Map(v.history, (h: int) => MovedIndex(v.selected, v.selected, h)) == v.history
  {
  }
}
