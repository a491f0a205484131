/**
 The tabs as an object (lib/ui/tab.go): each method is proved to do what the functions
 of TabOrder say.
 */
module Tabs {
  import opened Collections
  import T = TabOrder

  class Window {
    var tabs: seq<T.Tab>
    var selected: int
    var history: seq<int>

    constructor ()
      ensures View() == T.View([], 0, [])
    {
      tabs, selected, history := [], 0, [];
    }

    function View(): T.View
      reads this
    {
      T.View(tabs, selected, history)
    }

    method Add(id: int, content: int)
      modifies this
      ensures View() == old(View()).(tabs := old(tabs) + [T.Tab(id, content, false, 0)])
    {
      tabs := tabs + [T.Tab(id, content, false, 0)];
    }

    method Replace(source: int, id: int, content: int)
      modifies this
      ensures View() == T.Replace(old(View()), source, id, content)
    {
      T.FoundBelow(tabs, source);
      for i := 0 to |tabs|
        invariant View() == old(View())
        invariant forall k :: 0 <= k < i ==> tabs[k].content != source
      {
        if tabs[i].content == source {
          T.FirstFound(tabs, source, i);
          tabs := tabs[i := T.Tab(id, content, false, 0)];
          Select(i);
          return;
        }
      }
    }

    method Select(index: int)
      modifies this
      ensures View() == T.Select(old(View()), index)
    {
      var i := index;
      if i >= |tabs| {
        i := |tabs| - 1;
      }
      if selected != i {
        if selected < |tabs| {
          PushHistory(selected);
        }
        selected := i;
      }
    }

    method PushHistory(index: int)
      modifies this`history
      ensures history == old(history) + [index]
    {
      history := history + [index];
    }

    method PopHistory() returns (index: int, ok: bool)
      modifies this`history
      ensures ok <==> old(history) != []
      ensures if ok then old(history) == history + [index] else history == old(history)
    {
      var lastIdx := |history| - 1;
      if lastIdx < 0 {
        return 0, false;
      }
      index, ok := history[lastIdx], true;
      history := history[..lastIdx];
    }

    method SelectPrevious() returns (ok: bool)
      modifies this
      ensures ok <==> old(history) != []
      ensures View() == T.SelectPrevious(old(View()))
    {
      var index;
      index, ok := PopHistory();
      if !ok {
        return;
      }
      assert history == old(history)[..|old(history)| - 1];
      Select(index);
    }

    method RemoveHistory(index: int)
      modifies this`history
      ensures history == T.RemoveFromHistory(old(history), index)
    {
      var hist, newHist := history, [];
      for i := 0 to |hist|
        invariant newHist == T.RemoveFromHistory(hist[..i], index)
      {
        var item := hist[i];
        T.HistoryNext(hist, i, index);
        if item == index {
          continue;
        }
        if item > index {
          item := item - 1;
        }
        if i > 0 && |newHist| > 0 && item == newHist[|newHist| - 1] {
          continue;
        }
        newHist := newHist + [item];
      }
      assert hist[..|hist|] == hist;
      history := newHist;
    }

    method Remove(content: int)
      modifies this
      ensures View() == T.Remove(old(View()), content)
    {
      var indexToRemove := -1;
      for i := 0 to |tabs|
        invariant indexToRemove == -1 && View() == old(View())
        invariant forall k :: 0 <= k < i ==> tabs[k].content != content
      {
        if tabs[i].content == content {
          T.FirstFound(tabs, content, i);
          tabs := tabs[..i] + tabs[i + 1..];
          RemoveHistory(i);
          indexToRemove := i;
          break;
        }
      }
      if indexToRemove < 0 {
        T.FoundBelow(tabs, content);
        return;
      }
      if indexToRemove == selected {
        var index, ok := PopHistory();
        if ok {
          assert history == T.RemoveFromHistory(old(history), indexToRemove)[..|history|];
          Select(index);
        }
      } else if indexToRemove < selected {
        selected := selected - 1;
      }
    }

    method MoveTab(to: int)
      requires T.InRange(View())
      modifies this
      ensures View() == T.MoveTab(old(View()), to)
    {
      var from := selected;
      var t := to;
      if t < 0 {
        t := 0;
      }
      if t >= |tabs| {
        t := |tabs| - 1;
      }
      if t == from {
        T.MoveNowhere(View());
        return;
      }
      var tab := tabs[from];
      ShiftHistory(from, t);
      if t > from {
        tabs := tabs[..from] + tabs[from + 1..t + 1] + [tab] + tabs[t + 1..];
      } else {
        tabs := tabs[..t] + [tab] + tabs[t..from] + tabs[from + 1..];
      }
      T.MoveSlices(old(tabs), from, t);
      selected := t;
    }

    /** The loops of MoveTab over the history. */
    method ShiftHistory(from: int, to: int)
      modifies this`history
      ensures history == Map(old(history), (h: int) => T.MovedIndex(from, to, h))
    {
      for i := 0 to |history|
        invariant |history| == |old(history)|
        invariant forall k :: 0 <= k < i ==> history[k] == T.MovedIndex(from, to, old(history)[k])
        invariant forall k :: i <= k < |history| ==> history[k] == old(history)[k]
      {
        var h := history[i];
        if to > from {
          if h == from {
            history := history[i := to];
          }
          if h > from && h <= to {
            history := history[i := history[i] - 1];
          }
        } else {
          if h == from {
            history := history[i := to];
          }
          if h >= to && h < from {
            history := history[i := history[i] + 1];
          }
        }
      }
    }

    method PinTab()
      requires T.InRange(View())
      modifies this
      ensures View() == T.PinTab(old(View()))
    {
      if tabs[selected].pinned {
        return;
      }
      var pinEnd := |tabs|;
      for i := 0 to |tabs|
        invariant pinEnd == |tabs| && forall k :: 0 <= k < i ==> tabs[k].pinned
      {
        if !tabs[i].pinned {
          pinEnd := i;
          break;
        }
      }
      T.PinEndIs(tabs, pinEnd);
      var d := selected - pinEnd;
      for i := 0 to |tabs|
        invariant |tabs| == |old(tabs)| && selected == old(selected) && history == old(history)
        invariant forall k :: 0 <= k < i ==>
          tabs[k] == T.Narrowed(d)(old(tabs)[k])
        invariant forall k :: i <= k < |tabs| ==> tabs[k] == old(tabs)[k]
      {
        if tabs[i].pinned && tabs[i].slot > d {
          tabs := tabs[i := tabs[i].(slot := tabs[i].slot - 1)];
        }
      }
      assert tabs == Map(old(tabs), T.Narrowed(d)) by {
        assert forall k :: 0 <= k < |tabs| ==> tabs[k] == T.Narrowed(d)(old(tabs)[k]);
      }
      tabs := tabs[selected := tabs[selected].(pinned := true, slot := d)];
      assert tabs == T.Marked(old(View()));
      MoveTab(pinEnd);
    }

    method UnpinTab()
      requires T.InRange(View())
      modifies this
      ensures View() == T.UnpinTab(old(View()))
    {
      if !tabs[selected].pinned {
        return;
      }
      ghost var v := View();
      var pinEnd := |tabs|;
      for i := 0 to |tabs|
        invariant pinEnd == |tabs| == |old(tabs)| && selected == old(selected) && history == old(history)
        invariant i <= T.PinEnd(old(tabs))
        invariant forall k :: 0 <= k < i ==> tabs[k] == T.OpenSlot(v, k)
        invariant forall k :: i <= k < |tabs| ==> tabs[k] == old(tabs)[k]
        invariant tabs[selected] == old(tabs)[selected]
      {
        if i != selected && tabs[i].pinned && tabs[i].slot > tabs[selected].slot {
          tabs := tabs[i := tabs[i].(slot := tabs[i].slot + 1)];
        }
        if !tabs[i].pinned {
          pinEnd := i;
          break;
        }
      }
      T.PinEndIs(old(tabs), pinEnd);
      assert tabs == T.Spread(v);
      var slot := tabs[selected].slot;
      tabs := tabs[selected := tabs[selected].(pinned := false)];
      MoveTab(slot + pinEnd - 1);
    }
  }
}
