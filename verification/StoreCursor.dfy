/**
 The cursor of a message list and its visual marking (NextPrev, updateVisual and the
 marking methods of lib/msgstore.go, storeUpdate of widgets/msglist.go).  The cursor
 counts from the end of the list, so new messages at the end must move it.
 */
module StoreCursor {
  import opened Collections
  import opened StoreContents

  datatype View = View(
    uids: seq<Uid>, results: seq<Uid>, filter: bool, selected: int, resultIndex: int,
    marked: set<Uid>, visual: bool, start: Uid)

  function Shown(v: View): seq<Uid> {
    if v.filter then v.results else v.uids
  }

  /** The cursor as an index into the list. */
  function CursorIndex(v: View): int {
    |Shown(v)| - v.selected - 1
  }

  predicate InRange(v: View) {
    0 <= v.selected < |Shown(v)|
  }

  /** visualStartIdx, for a uid that is in the list. */
  function IndexIn(s: seq<Uid>, u: Uid): (i: nat)
    requires u in s
    ensures i < |s| && s[i] == u && u !in s[..i]
  {
    if s[0] == u then 0 else 1 + IndexIn(s[1..], u)
  }

  /** The uids from one index to another, both included. */
  function Between(s: seq<Uid>, i: nat, j: nat): set<Uid>
    requires i < |s| && j < |s|
  {
    if i < j then ToSet(s[i..j + 1]) else ToSet(s[j..i + 1])
  }

  function ClearVisualMark(v: View): View {
    v.(marked := {}, visual := false, start := 0)
  }

  function UpdateVisual(v: View): View
    requires InRange(v)
  {
    if !v.visual then v
    else if v.start !in Shown(v) then ClearVisualMark(v)
    else v.(marked := Between(Shown(v), IndexIn(Shown(v), v.start), CursorIndex(v)))
  }

  function Clamp(i: int, n: nat): int
    requires n > 0
  {
    if i < 0 then 0 else if i >= n then n - 1 else i
  }

  /** The search-result index follows the cursor when it lands on the neighbouring result. */
  function FollowResult(v: View, delta: int): View
    requires InRange(v)
  {
    var next := |v.results| - v.resultIndex - 2 * delta;
    if 0 <= next < |v.results| && v.results[next] == Shown(v)[CursorIndex(v)]
    then v.(resultIndex := v.resultIndex + delta)
    else v
  }

  function NextPrev(v: View, delta: int): View {
    if Shown(v) == [] then v
    else FollowResult(UpdateVisual(v.(selected := Clamp(v.selected + delta, |Shown(v)|))), delta)
  }

  function Repeat(v: View, delta: int, k: nat): View {
    if k == 0 then v else NextPrev(Repeat(v, delta, k - 1), delta)
  }

  /** storeUpdate: the cursor is moved once for every message gained or lost. */
  function StoreUpdate(v: View, nmsgs: nat): View {
    if Shown(v) == [] || nmsgs == 0 then v
    else if |Shown(v)| > nmsgs then Repeat(v, 1, |Shown(v)| - nmsgs)
    else Repeat(v, -1, nmsgs - |Shown(v)|)
  }

  function NewCount(v: View, nmsgs: nat): nat {
    if Shown(v) == [] then nmsgs else |Shown(v)|
  }

  function SelectedUid(v: View): Uid
    requires InRange(v)
  {
    Shown(v)[CursorIndex(v)]
  }

  // One and several movements

  /** The marks of visual mode: everything between the anchor and the cursor. */
  ghost predicate MarksRight(v: View) {
    && InRange(v)
    && (v.visual ==> v.start in Shown(v))
    && (v.visual ==> v.marked == Between(Shown(v), IndexIn(Shown(v), v.start), CursorIndex(v)))
  }

  /** What a movement to a given place does, apart from the search-result index. */
  ghost predicate MovedTo(v: View, w: View, selected: int) {
    && w.uids == v.uids && w.results == v.results && w.filter == v.filter
    && w.selected == selected
    && w.visual == (v.visual && v.start in Shown(v))
    && (w.visual ==> w.start == v.start)
    && (!w.visual ==> w.marked == if v.visual then {} else v.marked)
    && MarksRight(w)
  }

  lemma UpdateVisualEffect(v: View)
    requires InRange(v)
    ensures MovedTo(v, UpdateVisual(v), v.selected)
  {
  }

  lemma FollowResultEffect(v: View, delta: int)
    requires MarksRight(v)
    ensures FollowResult(v, delta) == v.(resultIndex := FollowResult(v, delta).resultIndex)
    ensures MarksRight(FollowResult(v, delta))
  {
  }

  lemma NextPrevEffect(v: View, delta: int)
    requires Shown(v) != []
    ensures MovedTo(v, NextPrev(v, delta), Clamp(v.selected + delta, |Shown(v)|))
  {
    var m := v.(selected := Clamp(v.selected + delta, |Shown(v)|));
    UpdateVisualEffect(m);
    FollowResultEffect(UpdateVisual(m), delta);
  }

  /** Any positive number of movements leaves the marks right, whatever they were before. */
  lemma {:induction false} RepeatEffect(v: View, delta: int, k: nat)
    requires Shown(v) != [] && k > 0
    ensures MovedTo(v, Repeat(v, delta, k), Repeat(v, delta, k).selected)
  {
    if k > 1 {
      RepeatEffect(v, delta, k - 1);
    }
    NextPrevEffect(Repeat(v, delta, k - 1), delta);
  }

  /** Where k steps back land: the first step also brings the cursor into the list. */
  function Landing(selected: int, n: nat, k: nat): int
    requires n > 0
  {
    if k == 0 then selected
    else Clamp(Clamp(selected - 1, n) - (k - 1), n)
  }

  lemma {:induction false} RepeatPrevLands(v: View, k: nat)
    requires Shown(v) != []
    ensures Shown(Repeat(v, -1, k)) == Shown(v)
    ensures Repeat(v, -1, k).selected == Landing(v.selected, |Shown(v)|, k)
  {
    if k > 0 {
      RepeatPrevLands(v, k - 1);
      NextPrevEffect(Repeat(v, -1, k - 1), -1);
    }
  }

  lemma {:induction false} RepeatNextLands(v: View, k: nat)
    requires Shown(v) != [] && 0 <= v.selected && v.selected + k < |Shown(v)|
    ensures Shown(Repeat(v, 1, k)) == Shown(v)
    ensures Repeat(v, 1, k).selected == v.selected + k
  {
    if k > 0 {
      RepeatNextLands(v, k - 1);
      NextPrevEffect(Repeat(v, 1, k - 1), 1);
    }
  }

  /** Select.  With visual mode on, a cursor past the end is a slice out of range. */
  function Select(v: View, index: int): Option<View> {
    var n := |Shown(v)|;
    var w := v.(selected := if index < 0 then n - 1 else if index > n then n else index);
    if !v.visual then Some(w)
    else if v.start !in Shown(v) then Some(ClearVisualMark(w))
    else if InRange(w) then Some(UpdateVisual(w))
    else None
  }

  /** Single marks: in visual mode marking is ignored, and unmarking leaves the mode. */
  function Mark(v: View, uid: Uid): View {
    if v.visual then v else v.(marked := v.marked + {uid})
  }

  function Unmark(v: View, uid: Uid): View {
    if v.visual then ClearVisualMark(v) else v.(marked := v.marked - {uid})
  }

  function ToggleMark(v: View, uid: Uid): View {
    if v.visual then v else if uid in v.marked then Unmark(v, uid) else Mark(v, uid)
  }

  // Runs of the list, filtering off

  datatype State = State(v: View, nmsgs: nat)

  datatype Event =
    | ToggleVisualMark
    | Move(delta: int)
    | SelectIndex(index: int)
    | MarkOne(uid: Uid)
    | UnmarkOne(uid: Uid)
    | ToggleOne(uid: Uid)
    | Arrive(newUids: seq<Uid>)
    | Delete(gone: seq<Uid>)

  function Toggle(v: View): View
    requires v.visual || InRange(v)
  {
    if v.visual then v.(visual := false)
    else
      var u := Shown(v)[CursorIndex(v)];
      v.(visual := true, start := u, marked := {u})
  }

  /** Arrivals are appended; a deletion leaves at least one message. */
  ghost predicate Enabled(s: State, e: Event) {
    match e
    case ToggleVisualMark => InRange(s.v)
    case SelectIndex(index) => Select(s.v, index).Some?
    case Arrive(newUids) => Distinct(s.v.uids + newUids)
    case Delete(gone) => |gone| != |s.v.uids|
    case _ => true
  }

  function Shrunk(v: View, gone: seq<Uid>): View {
    if |v.uids| < |gone| then v
    else v.(uids := Presized(Kept(v.uids, ToSet(gone)), |v.uids| - |gone|),
            results := Kept(v.results, ToSet(gone)), marked := v.marked - ToSet(gone))
  }

  function Apply(s: State, e: Event): State
    requires Enabled(s, e)
  {
    match e
    case ToggleVisualMark => s.(v := Toggle(s.v))
    case Move(delta) => s.(v := NextPrev(s.v, delta))
    case SelectIndex(index) => s.(v := Select(s.v, index).value)
    case MarkOne(uid) => s.(v := Mark(s.v, uid))
    case UnmarkOne(uid) => s.(v := Unmark(s.v, uid))
    case ToggleOne(uid) => s.(v := ToggleMark(s.v, uid))
    case Arrive(newUids) =>
      var v := s.v.(uids := s.v.uids + newUids);
      State(StoreUpdate(v, s.nmsgs), NewCount(v, s.nmsgs))
    case Delete(gone) =>
      var v := Shrunk(s.v, gone);
      State(StoreUpdate(v, s.nmsgs), NewCount(v, s.nmsgs))
  }

  ghost function Exec(start: State, run: seq<Event>): Option<State> {
    if run == [] then Some(start)
    else
      var before := Exec(start, run[..|run| - 1]);
      if before.Some? && Enabled(before.value, run[|run| - 1])
      then Some(Apply(before.value, run[|run| - 1]))
      else None
  }

  /** The cursor may be one past the end, but not in visual mode. */
  ghost predicate Inv(s: State) {
    && !s.v.filter && Distinct(s.v.uids) && s.v.uids != [] && s.nmsgs == |s.v.uids|
    && 0 <= s.v.selected <= |s.v.uids| && (s.v.visual ==> MarksRight(s.v))
  }

  /** And where a message is selected. */
  ghost predicate Sound(s: State) {
    Inv(s) && InRange(s.v)
  }

  ghost predicate Start(s: State) {
    && !s.v.filter && Distinct(s.v.uids) && s.nmsgs == |s.v.uids| && InRange(s.v) && !s.v.visual
  }

  lemma ArriveKeeps(s: State, newUids: seq<Uid>)
    requires Inv(s) && Enabled(s, Arrive(newUids))
    ensures Inv(Apply(s, Arrive(newUids)))
    ensures InRange(s.v) || newUids != [] ==> Sound(Apply(s, Arrive(newUids)))
    ensures s.v.visual ==> Apply(s, Arrive(newUids)).v.visual && Apply(s, Arrive(newUids)).v.start == s.v.start
  {
    var v := s.v.(uids := s.v.uids + newUids);
    if newUids == [] {
      assert v.uids == s.v.uids;
    } else {
      RepeatEffect(v, 1, |newUids|);
    }
  }

  lemma ShrunkList(v: View, gone: seq<Uid>)
    requires Distinct(v.uids) && |gone| < |v.uids|
    ensures Distinct(Shrunk(v, gone).uids) && |Shrunk(v, gone).uids| == |v.uids| - |gone|
    ensures gone == [] ==> Shrunk(v, gone).uids == v.uids && Shrunk(v, gone).marked == v.marked
    ensures forall u :: u in Shrunk(v, gone).uids ==> u in v.uids && u !in gone
  {
    PresizedCopy(v.uids, gone);
    FilterDistinct(v.uids, NotIn(ToSet(gone)));
    FilterLength(v.uids, NotIn(ToSet(gone)));
    forall u | u in Shrunk(v, gone).uids ensures u in v.uids && u !in gone {
      FilterMember(v.uids, NotIn(ToSet(gone)), u);
    }
  }

  /** The list is shorter, but not empty: the cursor is moved back. */
  lemma DeleteMoves(s: State, gone: seq<Uid>)
    requires Inv(s) && |gone| < |s.v.uids| && gone != []
    ensures var v := Shrunk(s.v, gone);
      && Shown(v) == v.uids != [] && |v.uids| == |s.v.uids| - |gone| && Distinct(v.uids)
      && Apply(s, Delete(gone)) == State(Repeat(v, -1, |gone|), |v.uids|)
      && MovedTo(v, Repeat(v, -1, |gone|), Repeat(v, -1, |gone|).selected)
  {
    ShrunkList(s.v, gone);
    RepeatEffect(Shrunk(s.v, gone), -1, |gone|);
  }

  lemma DeleteKeeps(s: State, gone: seq<Uid>)
    requires Inv(s) && Enabled(s, Delete(gone))
    ensures Inv(Apply(s, Delete(gone)))
    ensures InRange(s.v) ==> Sound(Apply(s, Delete(gone)))
    ensures |gone| < |s.v.uids| && gone != [] ==>
      MovedTo(Shrunk(s.v, gone), Apply(s, Delete(gone)).v, Apply(s, Delete(gone)).v.selected)
  {
    if |gone| > |s.v.uids| {
      assert Apply(s, Delete(gone)) == s;
    } else if gone == [] {
      ShrunkList(s.v, gone);
    } else {
      DeleteMoves(s, gone);
    }
  }

  /** The cursor is on a message after Select exactly if the index was not past the end. */
  lemma SelectKeeps(s: State, index: int)
    requires Inv(s)
    ensures Select(s.v, index).Some? ==> Inv(s.(v := Select(s.v, index).value))
    ensures Select(s.v, index).Some? && InRange(Select(s.v, index).value) <==> index < |s.v.uids|
    ensures Select(s.v, index).None? <==> s.v.visual && index >= |s.v.uids|
  {
    var n := |s.v.uids|;
    var w := s.v.(selected := if index < 0 then n - 1 else if index > n then n else index);
    if InRange(w) {
      UpdateVisualEffect(w);
    }
  }

  lemma {:induction false} StepKeeps(s: State, e: Event)
    requires Inv(s) && Enabled(s, e)
    ensures Inv(Apply(s, e))
  {
    match e
    case ToggleVisualMark =>
    case Move(delta) => NextPrevEffect(s.v, delta);
    case SelectIndex(index) => SelectKeeps(s, index);
    case MarkOne(_) =>
    case UnmarkOne(_) =>
    case ToggleOne(_) =>
    case Arrive(newUids) => ArriveKeeps(s, newUids);
    case Delete(gone) => DeleteKeeps(s, gone);
  }

  /**
   Visual marking.  Over every run, while visual mode is on the marked uids are exactly
   those between the anchor and the cursor, whatever path the cursor took.
   */
  lemma {:induction false} VisualMarks(start: State, run: seq<Event>)
    requires Start(start) && Exec(start, run).Some?
    ensures Inv(Exec(start, run).value)
  {
    if run != [] {
      VisualMarks(start, run[..|run| - 1]);
      StepKeeps(Exec(start, run[..|run| - 1]).value, run[|run| - 1]);
    }
  }

  lemma BetweenIs(s: seq<Uid>, i: nat, j: nat, u: Uid)
    requires i < |s| && j < |s|
    ensures u in Between(s, i, j) <==> exists k :: 0 <= k < |s| && (i <= k <= j || j <= k <= i) && s[k] == u
  {
    var lo, hi := if i < j then i else j, if i < j then j else i;
    if u in s[lo..hi + 1] {
      var k :| 0 <= k < |s[lo..hi + 1]| && s[lo..hi + 1][k] == u;
      assert s[lo + k] == u;
    }
    if k :| 0 <= k < |s| && lo <= k <= hi && s[k] == u {
      assert s[lo..hi + 1][k - lo] == u;
    }
  }

  /** Uid by uid: marked exactly if it stands from the anchor to the cursor, on either side. */
  lemma MarkedIff(start: State, run: seq<Event>, anchor: nat, u: Uid)
    requires Start(start) && Exec(start, run).Some?
    requires var v := Exec(start, run).value.v; v.visual && anchor < |v.uids| && v.uids[anchor] == v.start
    ensures var v := Exec(start, run).value.v;
      && 0 <= v.selected < |v.uids|
      && var cursor := |v.uids| - 1 - v.selected;
         u in v.marked <==>
           exists k :: 0 <= k < |v.uids| && (anchor <= k <= cursor || cursor <= k <= anchor) && v.uids[k] == u
  {
    var v := Exec(start, run).value.v;
    VisualMarks(start, run);
    assert IndexIn(v.uids, v.start) == anchor;
    BetweenIs(v.uids, anchor, CursorIndex(v), u);
  }

  /**
   Marking one message outside visual mode changes its mark and no other; in visual mode
   it changes nothing, except that unmarking ends the mode without marks.
   */
  lemma OneMark(v: View, uid: Uid, u: Uid)
    ensures !v.visual ==>
      && (u in Mark(v, uid).marked <==> u == uid || u in v.marked)
      && (u in Unmark(v, uid).marked <==> u != uid && u in v.marked)
      && (u in ToggleMark(v, uid).marked <==> if u == uid then u !in v.marked else u in v.marked)
      && ToggleMark(ToggleMark(v, uid), uid) == v
    ensures v.visual ==>
      && Mark(v, uid) == ToggleMark(v, uid) == v
      && !Unmark(v, uid).visual && u !in Unmark(v, uid).marked
  {
    assert uid in v.marked ==> v.marked - {uid} + {uid} == v.marked;
    assert uid !in v.marked ==> v.marked + {uid} - {uid} == v.marked;
  }

  /** Visual mode begins with the selected message as its only mark, and ends with the marks it has. */
  lemma ToggledMarks(v: View, u: Uid)
    requires v.visual || InRange(v)
    ensures Toggle(v).visual == !v.visual
    ensures u in Toggle(v).marked <==> if v.visual then u in v.marked else u == Shown(v)[|Shown(v)| - 1 - v.selected]
    ensures !v.visual ==> Toggle(v).start == Shown(v)[|Shown(v)| - 1 - v.selected]
  {
  }

  /** Selecting by index, counted from the end of the list; a negative index selects its first message. */
  lemma SelectIs(v: View, index: int)
    requires Shown(v) != []
    ensures index < |Shown(v)| ==>
      && Select(v, index).Some? && InRange(Select(v, index).value)
      && SelectedUid(Select(v, index).value) == (if index < 0 then Shown(v)[0] else Shown(v)[|Shown(v)| - 1 - index])
      && MovedTo(v, Select(v, index).value, if index < 0 then |Shown(v)| - 1 else index)
    ensures index >= |Shown(v)| && Select(v, index).Some? ==>
      Select(v, index).value.selected == |Shown(v)| && !Select(v, index).value.visual
  {
    var n := |Shown(v)|;
    var w := v.(selected := if index < 0 then n - 1 else if index > n then n else index);
    if InRange(w) {
      UpdateVisualEffect(w);
    }
  }

  // Search results

  /** The cursor is on result number k; the last of the results is number 0. */
  predicate OnResult(v: View, k: int) {
    InRange(v) && 0 <= k < |v.results| && v.results[|v.results| - 1 - k] == Shown(v)[CursorIndex(v)]
  }

  /** After a movement the result index follows exactly if the cursor is on one certain result. */
  lemma ResultIndexMoves(v: View, delta: int)
    requires Shown(v) != []
    ensures var w := NextPrev(v, delta);
      w.resultIndex == v.resultIndex + if OnResult(w, v.resultIndex + 2 * delta - 1) then delta else 0
  {
    var m := v.(selected := Clamp(v.selected + delta, |Shown(v)|));
    UpdateVisualEffect(m);
    FollowResultEffect(UpdateVisual(m), delta);
  }

  /** The result index names a result, and is to follow the cursor onto the result delta further. */
  ghost predicate FollowsRightly(v: View, delta: int) {
    var w := NextPrev(v, delta);
    w.resultIndex == v.resultIndex + delta <==> OnResult(w, v.resultIndex + delta)
  }

  ghost predicate Searched(v: View) {
    InRange(v) && Distinct(Shown(v)) && Distinct(v.results) && 0 <= v.resultIndex < |v.results|
  }

  /** A list of n + 1 messages that are all results, the cursor and the result index on number k. */
  function AllResults(n: nat, k: nat): View {
    var uids := seq(n + 1, i requires 0 <= i < n + 1 => i);
    View(uids, uids, false, k, k, {}, false, 0)
  }

  /** The instance for delta: from one end of the results to the other. */
  lemma OtherEnd(delta: int)
    requires delta < 0 || delta > 1
    ensures var n := if delta < 0 then -delta else delta; var v := AllResults(n, if delta < 0 then n else 0);
      Searched(v) && !FollowsRightly(v, delta)
  {
    var n := if delta < 0 then -delta else delta;
    var v := AllResults(n, if delta < 0 then n else 0);
    ResultIndexMoves(v, delta);
    NextPrevEffect(v, delta);
  }

  /**
   The index follows onto the neighbouring result exactly for a step of one forwards: the
   result looked at is number 2 * delta - 1 from the old one, so a step back, which looks
   three results back, leaves the index where it was.
   */
  lemma FollowsRightlyIff(delta: int)
    ensures (forall v :: Searched(v) ==> FollowsRightly(v, delta)) <==> delta == 1
  {
    if delta == 1 {
      forall v | Searched(v) ensures FollowsRightly(v, delta) {
        ResultIndexMoves(v, delta);
      }
    } else if delta == 0 {
      var v := View([1], [2], false, 0, 0, {}, false, 0);
      assert Searched(v) && !FollowsRightly(v, 0);
    } else {
      OtherEnd(delta);
    }
  }

  /** An instance: going back from the older of two results to the newer one. */
  lemma GoingBackLosesResult()
    ensures var v := View([1, 2], [1, 2], false, 1, 1, {}, false, 0);
      && OnResult(v, 1) && OnResult(NextPrev(v, -1), 0) && NextPrev(v, -1).resultIndex == 1
  {
    var v := View([1, 2], [1, 2], false, 1, 1, {}, false, 0);
    ResultIndexMoves(v, -1);
  }

  /** Deleting the anchor leaves visual mode, with nothing marked. */
  lemma AnchorDeleted(s: State, gone: seq<Uid>)
    requires Inv(s) && Enabled(s, Delete(gone)) && s.v.visual && s.v.start in gone && |gone| <= |s.v.uids|
    ensures !Apply(s, Delete(gone)).v.visual && Apply(s, Delete(gone)).v.marked == {}
  {
    DeleteKeeps(s, gone);
    ShrunkList(s.v, gone);
  }

  // Cursor stability

  ghost predicate StaysSelected(v: View, t: View) {
    InRange(v) && InRange(t) && SelectedUid(t) == SelectedUid(v)
  }

  /** Where the cursor lands after any listing, reordered or not. */
  function ListedSelection(v: View, n: nat): int
    requires n > 0
  {
    if n >= |v.uids| then v.selected + (n - |v.uids|) else Landing(v.selected, n, |v.uids| - n)
  }

  lemma ListingLands(s: State, list: seq<Uid>)
    requires Sound(s) && list != []
    ensures var t := StoreUpdate(s.v.(uids := list), s.nmsgs);
      && Shown(t) == list && t.selected == ListedSelection(s.v, |list|) && 0 <= t.selected < |list|
  {
    var v := s.v.(uids := list);
    if |list| > s.nmsgs {
      RepeatNextLands(v, |list| - s.nmsgs);
    } else if |list| < s.nmsgs {
      RepeatPrevLands(v, s.nmsgs - |list|);
      LandsInside(v.selected, |list|, s.nmsgs - |list|);
    }
  }

  lemma LandsInside(selected: int, n: nat, k: nat)
    requires n > 0 && k > 0
    ensures 0 <= Landing(selected, n, k) < n
  {
  }

  /**
   Any listing.  The selected message stays selected exactly if the new list has it where
   the cursor lands; when the list has not become shorter, that is at its old index.
   */
  lemma ListingKeepsSelectionIff(s: State, list: seq<Uid>)
    requires Sound(s) && list != []
    ensures var t := StoreUpdate(s.v.(uids := list), s.nmsgs);
      && 0 <= ListedSelection(s.v, |list|) < |list|
      && (StaysSelected(s.v, t) <==> list[|list| - ListedSelection(s.v, |list|) - 1] == SelectedUid(s.v))
  {
    ListingLands(s, list);
  }

  lemma ListingKeepsIndexIff(s: State, list: seq<Uid>)
    requires Sound(s) && |list| >= |s.v.uids|
    ensures StaysSelected(s.v, StoreUpdate(s.v.(uids := list), s.nmsgs)) <==> list[CursorIndex(s.v)] == SelectedUid(s.v)
  {
    ListingKeepsSelectionIff(s, list);
    assert |list| - ListedSelection(s.v, |list|) - 1 == CursorIndex(s.v);
  }

  /** Messages appended to the list do not move the selection off its message. */
  lemma ArrivalKeepsSelection(s: State, newUids: seq<Uid>)
    requires Sound(s) && Enabled(s, Arrive(newUids))
    ensures StaysSelected(s.v, Apply(s, Arrive(newUids)).v)
  {
    ListingKeepsIndexIff(s, s.v.uids + newUids);
  }

  /** How many of the uids behind the cursor a deletion takes. */
  function BehindCursor(v: View, gone: set<Uid>): nat
    requires InRange(v) && !v.filter
  {
    FilterLength(v.uids[CursorIndex(v) + 1..], NotIn(gone));
    |v.uids[CursorIndex(v) + 1..]| - |Kept(v.uids[CursorIndex(v) + 1..], gone)|
  }

  lemma FewerGone(uids: seq<Uid>, gone: seq<Uid>, u: Uid)
    requires Distinct(uids) && Distinct(gone) && u in uids && u !in gone
    requires forall w :: w in gone ==> w in uids
    ensures |gone| < |uids|
  {
    SetSize(gone);
    SetSize(uids);
    Subset(ToSet(gone), ToSet(uids));
    assert u in ToSet(uids) && u !in ToSet(gone);
  }

  lemma KeptAround(uids: seq<Uid>, c: nat, gone: set<Uid>)
    requires c < |uids| && uids[c] !in gone
    ensures Kept(uids, gone) == Kept(uids[..c], gone) + ([uids[c]] + Kept(uids[c + 1..], gone))
  {
    assert uids == uids[..c] + ([uids[c]] + uids[c + 1..]);
    FilterAppend(uids[..c], [uids[c]] + uids[c + 1..], NotIn(gone));
    FilterCons(uids[c], uids[c + 1..], NotIn(gone));
  }

  /** Where the selected message is after the deletion of others. */
  lemma SurvivorPosition(v: View, gone: seq<Uid>)
    requires InRange(v) && !v.filter && Distinct(v.uids) && SelectedUid(v) !in gone
    requires Distinct(gone) && forall u :: u in gone ==> u in v.uids
    ensures |gone| < |v.uids| && |Shrunk(v, gone).uids| == |v.uids| - |gone|
    ensures var uids := Shrunk(v, gone).uids;
      var sel := v.selected - BehindCursor(v, ToSet(gone));
      0 <= sel < |uids| && uids[|uids| - sel - 1] == SelectedUid(v)
  {
    FewerGone(v.uids, gone, SelectedUid(v));
    PresizedCopy(v.uids, gone);
    KeptAround(v.uids, CursorIndex(v), ToSet(gone));
  }

  lemma DeleteLands(s: State, gone: seq<Uid>)
    requires Sound(s) && |gone| < |s.v.uids|
    ensures Enabled(s, Delete(gone))
    ensures var t := Apply(s, Delete(gone)).v;
      && !t.filter && t.uids == Shrunk(s.v, gone).uids && |t.uids| == |s.v.uids| - |gone|
      && Distinct(t.uids) && InRange(t)
      && t.selected == Landing(s.v.selected, |s.v.uids| - |gone|, |gone|)
  {
    ShrunkList(s.v, gone);
    DeleteKeeps(s, gone);
    RepeatPrevLands(Shrunk(s.v, gone), |gone|);
  }

  /** In a list without duplicates a cursor is on a uid exactly at that uid's place. */
  lemma SameUidIff(v: View, sel: int, u: Uid)
    requires InRange(v) && Distinct(Shown(v)) && 0 <= sel < |Shown(v)| && Shown(v)[|Shown(v)| - sel - 1] == u
    ensures SelectedUid(v) == u <==> v.selected == sel
  {
  }

  lemma StaysIff(v: View, t: View, gone: seq<Uid>)
    requires InRange(v) && !v.filter && Distinct(v.uids) && SelectedUid(v) !in gone
    requires Distinct(gone) && forall u :: u in gone ==> u in v.uids
    requires !t.filter && t.uids == Shrunk(v, gone).uids && Distinct(t.uids) && InRange(t)
    ensures StaysSelected(v, t) <==> t.selected == v.selected - BehindCursor(v, ToSet(gone))
  {
    SurvivorPosition(v, gone);
    SameUidIff(t, v.selected - BehindCursor(v, ToSet(gone)), SelectedUid(v));
  }

  /**
   Deletions.  When the selected message survives the deletion of k others, a of them
   behind it, it stays selected exactly when k steps back land a places nearer the end.
   */
  lemma DeletionKeepsSelectionIff(s: State, gone: seq<Uid>)
    requires Sound(s) && SelectedUid(s.v) !in gone
    requires Distinct(gone) && forall u :: u in gone ==> u in s.v.uids
    ensures Enabled(s, Delete(gone)) && |gone| < |s.v.uids|
    ensures StaysSelected(s.v, Apply(s, Delete(gone)).v) <==>
      Landing(s.v.selected, |s.v.uids| - |gone|, |gone|) == s.v.selected - BehindCursor(s.v, ToSet(gone))
  {
    FewerGone(s.v.uids, gone, SelectedUid(s.v));
    DeleteLands(s, gone);
    StaysIff(s.v, Apply(s, Delete(gone)).v, gone);
  }

  /**
   In particular, when all k deleted messages lie behind the selected one it stays
   selected exactly when the cursor was at most as large as the number of messages left,
   or everything behind it was deleted.  Otherwise the first step back is cut short by
   the new end of the list and the remaining steps overshoot.
   */
  lemma DeletionBehindCursor(s: State, gone: seq<Uid>)
    requires Sound(s) && gone != []
    requires Distinct(gone) && forall u :: u in gone ==> u in s.v.uids[CursorIndex(s.v) + 1..]
    ensures Enabled(s, Delete(gone))
    ensures StaysSelected(s.v, Apply(s, Delete(gone)).v) <==>
      s.v.selected <= |s.v.uids| - |gone| || s.v.selected == |gone|
  {
    AllBehindCursor(s.v, gone);
    DeletionKeepsSelectionIff(s, gone);
  }

  lemma AllGone(behind: seq<Uid>, gone: seq<Uid>)
    requires Distinct(behind) && Distinct(gone) && forall u :: u in gone ==> u in behind
    ensures |behind| - |Kept(behind, ToSet(gone))| == |gone| <= |behind|
  {
    KeptLength(behind, ToSet(gone));
    SetSize(gone);
    SetSize(behind);
    assert ToSet(gone) * ToSet(behind) == ToSet(gone);
    Subset(ToSet(gone), ToSet(behind));
  }

  lemma AllBehindCursor(v: View, gone: seq<Uid>)
    requires InRange(v) && !v.filter && Distinct(v.uids)
    requires Distinct(gone) && forall u :: u in gone ==> u in v.uids[CursorIndex(v) + 1..]
    ensures SelectedUid(v) !in gone && forall u :: u in gone ==> u in v.uids
    ensures BehindCursor(v, ToSet(gone)) == |gone| <= v.selected
  {
    var c := CursorIndex(v);
    var behind := v.uids[c + 1..];
    assert forall i :: 0 <= i < |behind| ==> behind[i] == v.uids[c + 1 + i];
    AllGone(behind, gone);
  }

  /** An instance: message 1 is selected, and is not after two of those behind it are gone. */
  lemma SelectionJumps()
    ensures var s := State(View([1, 2, 3, 4], [], false, 3, 0, {}, false, 0), 4);
      && Sound(s) && Enabled(s, Delete([3, 4])) && !StaysSelected(s.v, Apply(s, Delete([3, 4])).v)
  {
    var s := State(View([1, 2, 3, 4], [], false, 3, 0, {}, false, 0), 4);
    assert s.v.uids[CursorIndex(s.v) + 1..] == [2, 3, 4];
    DeletionBehindCursor(s, [3, 4]);
  }
}
