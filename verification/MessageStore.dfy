/**
 The message store and the message list as objects (lib/msgstore.go,
 widgets/msglist.go).  Each method is proved to do what the functions of
 StoreContents, StoreCursor and StoreFetch say, and to leave the rest alone.
 */
module MessageStore {
  import opened Collections
  import opened StoreContents
  import C = StoreCursor
  import F = StoreFetch
  import P = StorePosts

  /** A reply to an action. */
  datatype Reply = Done | Error | Other

  class Store {
    var deleted: set<Uid>
    var messages: map<Uid, Option<Info>>
    var uids: seq<Uid>
    var selected: int
    var bodyCallbacks: map<Uid, seq<F.Callback>>
    var pendingBodies: set<Uid>
    var marked: set<Uid>
    var visualStartUid: Uid
    var visualMarkMode: bool
    var results: seq<Uid>
    var resultIndex: int
    var filter: bool
    var requests: seq<seq<Uid>>             // FetchFullMessages actions posted
    var posted: seq<P.Post>                 // other actions posted
    var fired: seq<(Uid, F.Callback)>       // body callbacks run
    var arrivals: seq<Uid>                  // full messages that were awaited
    var headers: F.Fetches                  // pendingHeaders and headerCallbacks, with what has come of them
    var dirInfo: int
    var sorting: bool
    var newMails: seq<Info>                 // what triggerNewEmail has been told
    var updates: nat                        // how often the update handlers have run

    constructor ()
      ensures Contents() == EMPTY && Fetches() == F.NONE
      ensures View() == C.View([], [], false, 0, 0, {}, false, 0)
      ensures headers == F.NONE && posted == [] && newMails == []
    {
      deleted, messages, uids, selected := {}, map[], [], 0;
      bodyCallbacks, pendingBodies := map[], {};
      marked, visualStartUid, visualMarkMode := {}, 0, false;
      results, resultIndex, filter := [], 0, false;
      requests, posted, fired, arrivals := [], [], [], [];
      headers := F.NONE;
      dirInfo, sorting, newMails, updates := 0, false, [], 0;
    }

    function Contents(): Contents
      reads this
    {
      StoreContents.Contents(uids, messages, deleted, results)
    }

    function View(): C.View
      reads this
    {
      C.View(uids, results, filter, selected, resultIndex, marked, visualMarkMode, visualStartUid)
    }

    function Fetches(): F.Fetches
      reads this
    {
      F.Fetches(pendingBodies, bodyCallbacks, requests, fired, arrivals)
    }

    method FetchHeaders(wanted: seq<Uid>, cb: Option<F.Callback>)
      modifies this`headers
      ensures headers == F.FetchFull(old(headers), wanted, cb)
    {
      var toFetch := [];
      for i := 0 to |wanted|
        invariant F.Collect(old(headers), wanted[..i], cb) == (headers, toFetch)
      {
        var uid := wanted[i];
        assert wanted[..i + 1][..i] == wanted[..i];
        if uid !in headers.pending {
          toFetch := toFetch + [uid];
          headers := headers.(pending := headers.pending + {uid});
          if cb.Some? {
            if uid in headers.callbacks {
              headers := headers.(callbacks := headers.callbacks[uid := headers.callbacks[uid] + [cb.value]]);
            } else {
              headers := headers.(callbacks := headers.callbacks[uid := [cb.value]]);
            }
          }
        }
      }
      assert wanted[..|wanted|] == wanted;
      if |toFetch| > 0 {
        headers := headers.(requests := headers.requests + [toFetch]);
      }
    }

    method FetchFull(wanted: seq<Uid>, cb: Option<F.Callback>)
      modifies this`pendingBodies, this`bodyCallbacks, this`requests
      ensures Fetches() == F.FetchFull(old(Fetches()), wanted, cb)
    {
      var toFetch := [];
      for i := 0 to |wanted|
        invariant F.Collect(old(Fetches()), wanted[..i], cb) == (Fetches(), toFetch)
      {
        var uid := wanted[i];
        assert wanted[..i + 1][..i] == wanted[..i];
        if uid !in pendingBodies {
          toFetch := toFetch + [uid];
          pendingBodies := pendingBodies + {uid};
          if cb.Some? {
            if uid in bodyCallbacks {
              bodyCallbacks := bodyCallbacks[uid := bodyCallbacks[uid] + [cb.value]];
            } else {
              bodyCallbacks := bodyCallbacks[uid := [cb.value]];
            }
          }
        }
      }
      assert wanted[..|wanted|] == wanted;
      if |toFetch| > 0 {
        requests := requests + [toFetch];
      }
    }

    /** The callback FetchFull posts its action with. */
    method OnFetchError(toFetch: seq<Uid>)
      modifies this`bodyCallbacks
      ensures Fetches() == F.FetchError(old(Fetches()), toFetch)
    {
      for i := 0 to |toFetch|
        invariant bodyCallbacks == old(bodyCallbacks) - ToSet(toFetch[..i])
      {
        assert ToSet(toFetch[..i + 1]) == ToSet(toFetch[..i]) + {toFetch[i]};
        bodyCallbacks := bodyCallbacks - {toFetch[i]};
      }
      assert toFetch[..|toFetch|] == toFetch;
    }

    /**
     Update.  The result says whether the store's own update handlers are to run and
     whether a listing brought a message not known before.
     */
    method Update(msg: Message) returns (update: bool, directoryChange: bool)
      modifies this
      ensures Contents() == StoreContents.Update(old(Contents()), msg)
      ensures Fetches() == if msg.FullMessage? then F.FullMessage(old(Fetches()), msg.uid) else old(Fetches())
      ensures headers == if msg.MessageInfo? then F.HeaderInfo(old(headers), msg.info.uid, msg.info.envelope.Some?)
        else old(headers)
      ensures View() == if msg.MessagesDeleted? then C.Shrunk(old(View()), msg.deletedUids)
        else if msg.DirectoryContents? then old(View()).(uids := msg.uids) else old(View())
      ensures posted == old(posted) + if msg.DirectoryInfo? then [P.Post(P.FetchDirectoryContents, P.Nobody)] else []
      ensures dirInfo == (if msg.DirectoryInfo? then msg.dirInfo else old(dirInfo)) && sorting == (old(sorting) || msg.DirectoryInfo?)
      ensures newMails == old(newMails) + if msg.MessageInfo? && IsNewMail(msg.info) then [msg.info] else []
      ensures update <==> !msg.FullMessage?
      ensures updates == old(updates) + if update then 1 else 0
      ensures directoryChange <==> msg.DirectoryContents? && exists u :: u in msg.uids && u !in old(messages)
    {
      update, directoryChange := UpdateContents(msg);
      Notify(msg);
    }

    /** What Update does to the messages, the list and the bodies awaited. */
    method UpdateContents(msg: Message) returns (update: bool, directoryChange: bool)
      modifies this`messages, this`uids, this`deleted, this`marked, this`results,
               this`pendingBodies, this`bodyCallbacks, this`fired, this`arrivals
      ensures Contents() == StoreContents.Update(old(Contents()), msg)
      ensures Fetches() == if msg.FullMessage? then F.FullMessage(old(Fetches()), msg.uid) else old(Fetches())
      ensures View() == if msg.MessagesDeleted? then C.Shrunk(old(View()), msg.deletedUids)
        else if msg.DirectoryContents? then old(View()).(uids := msg.uids) else old(View())
      ensures update <==> !msg.FullMessage?
      ensures directoryChange <==> msg.DirectoryContents? && exists u :: u in msg.uids && u !in old(messages)
    {
      update, directoryChange := true, false;
      match msg
      case DirectoryInfo(_) =>
      case DirectoryContents(list) =>
        directoryChange := List(list);
      case MessageInfo(info) =>
        if info.uid in messages && messages[info.uid].Some? {
          messages := messages[info.uid := Some(Merge(messages[info.uid].value, info))];
        } else {
          messages := messages[info.uid := Some(info)];
        }
      case FullMessage(uid) =>
        Arrived(uid);
        update := false;
      case MessagesDeleted(gone) =>
        RemoveIfListed(gone);
    }

    /** What else it does: the folder's state, new mail, and the headers awaited. */
    method Notify(msg: Message)
      modifies this`dirInfo, this`sorting, this`posted, this`newMails,
               this`headers, this`updates
      ensures updates == old(updates) + if msg.FullMessage? then 0 else 1
      ensures headers == if msg.MessageInfo? then F.HeaderInfo(old(headers), msg.info.uid, msg.info.envelope.Some?)
        else old(headers)
      ensures posted == old(posted) + if msg.DirectoryInfo? then [P.Post(P.FetchDirectoryContents, P.Nobody)] else []
      ensures dirInfo == (if msg.DirectoryInfo? then msg.dirInfo else old(dirInfo)) && sorting == (old(sorting) || msg.DirectoryInfo?)
      ensures newMails == old(newMails) + if msg.MessageInfo? && IsNewMail(msg.info) then [msg.info] else []
    {
      if !msg.FullMessage? {
        updates := updates + 1;
      }
      match msg
      case DirectoryInfo(info) =>
        dirInfo := info;
        Sort();
      case MessageInfo(info) =>
        if SEEN !in info.flags && RECENT in info.flags {
          newMails := newMails + [info];
        }
        if info.envelope.Some? {
          HeadersArrived(info.uid);
        }
      case _ =>
    }

    method RemoveIfListed(gone: seq<Uid>)
      modifies this`messages, this`deleted, this`marked, this`uids, this`results
      ensures Contents() == StoreContents.Update(old(Contents()), MessagesDeleted(gone))
      ensures View() == C.Shrunk(old(View()), gone)
    {
      if |uids| >= |gone| {
        Remove(gone);
      }
    }

    method Sort()
      modifies this`posted, this`sorting
      ensures sorting && posted == old(posted) + [P.Post(P.FetchDirectoryContents, P.Nobody)]
    {
      sorting := true;
      posted := posted + [P.Post(P.FetchDirectoryContents, P.Nobody)];
    }

    method HeadersArrived(uid: Uid)
      modifies this`headers
      ensures headers == F.HeaderInfo(old(headers), uid, true)
    {
      if uid in headers.pending {
        headers := headers.(pending := headers.pending - {uid}, arrivals := headers.arrivals + [uid]);
        if uid in headers.callbacks {
          var cbs := headers.callbacks[uid];
          ghost var before := headers;
          for i := 0 to |cbs|
            invariant headers == before.(fired := before.fired + F.Fire(uid, cbs[..i]))
          {
            assert F.Fire(uid, cbs[..i + 1]) == F.Fire(uid, cbs[..i]) + [(uid, cbs[i])];
            headers := headers.(fired := headers.fired + [(uid, cbs[i])]);
          }
          assert cbs[..|cbs|] == cbs;
        }
      }
    }

    method List(list: seq<Uid>) returns (directoryChange: bool)
      modifies this`messages, this`uids
      ensures Contents() == StoreContents.Update(old(Contents()), DirectoryContents(list))
      ensures View() == old(View()).(uids := list)
      ensures directoryChange <==> exists u :: u in list && u !in old(messages)
    {
      var newMap: map<Uid, Option<Info>> := map[];
      directoryChange := false;
      for i := 0 to |list|
        invariant newMap.Keys == ToSet(list[..i])
        invariant forall u :: u in newMap ==> newMap[u] == Known(messages, u)
        invariant directoryChange <==> exists k :: 0 <= k < i && list[k] !in messages
        invariant messages == old(messages)
      {
        assert ToSet(list[..i + 1]) == ToSet(list[..i]) + {list[i]};
        if list[i] in messages {
          newMap := newMap[list[i] := messages[list[i]]];
        } else {
          newMap := newMap[list[i] := None];
          directoryChange := true;
        }
      }
      assert list[..|list|] == list;
      assert newMap == map u | u in list :: Known(messages, u);
      messages := newMap;
      uids := list;
    }

    method Arrived(uid: Uid)
      modifies this`pendingBodies, this`bodyCallbacks, this`fired, this`arrivals
      ensures Fetches() == F.FullMessage(old(Fetches()), uid)
    {
      if uid in pendingBodies {
        pendingBodies := pendingBodies - {uid};
        arrivals := arrivals + [uid];
        if uid in bodyCallbacks {
          var cbs := bodyCallbacks[uid];
          for i := 0 to |cbs|
            invariant fired == old(fired) + F.Fire(uid, cbs[..i])
            invariant bodyCallbacks == old(bodyCallbacks)
            invariant pendingBodies == old(pendingBodies) - {uid} && arrivals == old(arrivals) + [uid]
          {
            assert F.Fire(uid, cbs[..i + 1]) == F.Fire(uid, cbs[..i]) + [(uid, cbs[i])];
            fired := fired + [(uid, cbs[i])];
          }
          assert cbs[..|cbs|] == cbs;
          bodyCallbacks := bodyCallbacks - {uid};
        }
      }
    }

    /** The MessagesDeleted case, with its slice made beforehand. */
    method Remove(gone: seq<Uid>)
      requires |uids| >= |gone|
      modifies this`messages, this`deleted, this`marked, this`uids, this`results
      ensures Contents() == StoreContents.Update(old(Contents()), MessagesDeleted(gone))
      ensures marked == old(marked) - ToSet(gone)
    {
      var toDelete: set<Uid> := {};
      for i := 0 to |gone|
        invariant toDelete == ToSet(gone[..i])
        invariant messages == old(messages) - toDelete
        invariant deleted == old(deleted) - toDelete && marked == old(marked) - toDelete
        invariant uids == old(uids) && results == old(results)
      {
        assert ToSet(gone[..i + 1]) == ToSet(gone[..i]) + {gone[i]};
        toDelete := toDelete + {gone[i]};
        messages, deleted, marked := messages - {gone[i]}, deleted - {gone[i]}, marked - {gone[i]};
      }
      assert gone[..|gone|] == gone;
      uids := CopyKept(uids, toDelete, |uids| - |gone|);
      results := Keep(results, toDelete);
    }

    static method Keep(list: seq<Uid>, toDelete: set<Uid>) returns (newResults: seq<Uid>)
      ensures newResults == Kept(list, toDelete)
    {
      newResults := [];
      for i := 0 to |list|
        invariant newResults == Kept(list[..i], toDelete)
      {
        KeptStep(list, i, toDelete);
        if list[i] !in toDelete {
          newResults := newResults + [list[i]];
        }
      }
      assert list[..|list|] == list;
    }

    static method CopyKept(list: seq<Uid>, toDelete: set<Uid>, size: nat) returns (r: seq<Uid>)
      ensures r == Presized(Kept(list, toDelete), size)
    {
      var copy := new Uid[size](_ => 0);
      var j := 0;
      ghost var kept := [];
      for i := 0 to |list|
        invariant kept == Kept(list[..i], toDelete) && copy[..] == Presized(kept, size)
        invariant j == if |kept| < size then |kept| else size
      {
        KeptStep(list, i, toDelete);
        if list[i] !in toDelete && j < copy.Length {
          copy[j] := list[i];
          j := j + 1;
        }
        if list[i] !in toDelete {
          kept := kept + [list[i]];
        }
      }
      assert list[..|list|] == list;
      return copy[..];
    }

    method Uids() returns (list: seq<Uid>)
      ensures list == C.Shown(View())
    {
      list := if filter then results else uids;
    }

    method VisualStartIdx() returns (idx: int)
      ensures idx == if visualStartUid in C.Shown(View()) then C.IndexIn(C.Shown(View()), visualStartUid) else -1
    {
      var list := Uids();
      for i := 0 to |list|
        invariant visualStartUid !in list[..i]
      {
        if list[i] == visualStartUid {
          FirstIndex(list, i);
          return i;
        }
      }
      assert list[..|list|] == list;
      return -1;
    }

    method ClearVisualMark()
      modifies this`marked, this`visualMarkMode, this`visualStartUid
      ensures View() == C.ClearVisualMark(old(View()))
    {
      marked := {};
      visualMarkMode := false;
      visualStartUid := 0;
    }

    method UpdateVisual()
      requires C.InRange(View())
      modifies this`marked, this`visualMarkMode, this`visualStartUid
      ensures View() == C.UpdateVisual(old(View()))
    {
      if !visualMarkMode {
        return;
      }
      var startIdx := VisualStartIdx();
      if startIdx < 0 {
        ClearVisualMark();
        return;
      }
      var list := Uids();
      marked := MarkBetween(list, startIdx, |list| - selected - 1);
    }

    static method MarkBetween(list: seq<Uid>, startIdx: nat, selectedIdx: nat) returns (marks: set<Uid>)
      requires startIdx < |list| && selectedIdx < |list|
      ensures marks == C.Between(list, startIdx, selectedIdx)
    {
      if selectedIdx > startIdx {
        marks := MarkAll(list[startIdx..selectedIdx + 1]);
      } else {
        marks := MarkAll(list[selectedIdx..startIdx + 1]);
      }
    }

    static method MarkAll(visUids: seq<Uid>) returns (marks: set<Uid>)
      ensures marks == ToSet(visUids)
    {
      marks := {};
      for i := 0 to |visUids|
        invariant marks == ToSet(visUids[..i])
      {
        assert ToSet(visUids[..i + 1]) == ToSet(visUids[..i]) + {visUids[i]};
        marks := marks + {visUids[i]};
      }
      assert visUids[..|visUids|] == visUids;
    }

    /** The source stops with a fault when the selected message is not loaded. */
    method ToggleVisualMark()
      requires !visualMarkMode ==>
        C.InRange(View()) && WellFormed(Contents()) && Known(messages, C.SelectedUid(View())).Some?
      modifies this`marked, this`visualMarkMode, this`visualStartUid
      ensures View() == C.Toggle(old(View()))
    {
      visualMarkMode := !visualMarkMode;
      if visualMarkMode {
        marked := {};
        var list := Uids();
        visualStartUid := messages[list[|list| - selected - 1]].value.uid;
        marked := marked + {visualStartUid};
      }
    }

    method NextPrev(delta: int)
      modifies this`selected, this`marked, this`visualMarkMode, this`visualStartUid, this`resultIndex
      ensures View() == C.NextPrev(old(View()), delta)
    {
      var list := Uids();
      if |list| == 0 {
        return;
      }
      selected := selected + delta;
      if selected < 0 {
        selected := 0;
      }
      if selected >= |list| {
        selected := |list| - 1;
      }
      UpdateVisual();
      FollowResult(delta);
    }

    /** The end of NextPrev. */
    method FollowResult(delta: int)
      requires C.InRange(View())
      modifies this`resultIndex
      ensures View() == C.FollowResult(old(View()), delta)
    {
      var list := Uids();
      var nextResultIndex := |results| - resultIndex - 2 * delta;
      if nextResultIndex < 0 || nextResultIndex >= |results| {
        return;
      }
      if results[nextResultIndex] == list[|list| - selected - 1] {
        resultIndex := resultIndex + delta;
      }
    }

    /** In visual mode a cursor past the end makes the source fault. */
    method Select(index: int) returns (fault: bool)
      modifies this`selected, this`marked, this`visualMarkMode, this`visualStartUid
      ensures fault <==> C.Select(old(View()), index).None?
      ensures !fault ==> View() == C.Select(old(View()), index).value
    {
      var list := Uids();
      selected := index;
      if selected < 0 {
        selected := |list| - 1;
      } else if selected > |list| {
        selected := |list|;
      }
      if visualMarkMode {
        var startIdx := VisualStartIdx();
        if startIdx >= 0 && !(0 <= selected < |list|) {
          return true;
        }
        if startIdx < 0 {
          ClearVisualMark();
        } else {
          UpdateVisual();
        }
      }
      return false;
    }

    method Mark(uid: Uid)
      modifies this`marked
      ensures View() == C.Mark(old(View()), uid)
    {
      if !visualMarkMode {
        marked := marked + {uid};
      }
    }

    method Unmark(uid: Uid)
      modifies this`marked, this`visualMarkMode, this`visualStartUid
      ensures View() == C.Unmark(old(View()), uid)
    {
      if visualMarkMode {
        ClearVisualMark();
        return;
      }
      marked := marked - {uid};
    }

    method ToggleMark(uid: Uid)
      modifies this`marked, this`visualMarkMode, this`visualStartUid
      ensures View() == C.ToggleMark(old(View()), uid)
    {
      if visualMarkMode {
        return;
      }
      if uid in marked {
        Unmark(uid);
      } else {
        Mark(uid);
      }
    }

    method Delete(toDelete: seq<Uid>)
      modifies this`deleted, this`posted, this`updates
      ensures deleted == old(deleted) + ToSet(toDelete)
      ensures posted == old(posted) + P.DeletePosts(toDelete)
      ensures updates == old(updates) + 1
    {
      MarkDeleted(toDelete);
      posted := posted + [P.Post(P.DeleteMessages(toDelete), P.Caller)];
      updates := updates + 1;
    }

    method MarkDeleted(list: seq<Uid>)
      modifies this`deleted
      ensures deleted == old(deleted) + ToSet(list)
    {
      for i := 0 to |list|
        invariant deleted == old(deleted) + ToSet(list[..i])
      {
        assert ToSet(list[..i + 1]) == ToSet(list[..i]) + {list[i]};
        deleted := deleted + {list[i]};
      }
      assert list[..|list|] == list;
    }

    method Copy(toCopy: seq<Uid>, dest: string, createDest: bool)
      modifies this`posted
      ensures posted == old(posted) + P.CopyPosts(toCopy, dest, createDest)
    {
      if createDest {
        posted := posted + [P.Post(P.CreateDirectory(dest), P.Caller)];
      }
      posted := posted + [P.Post(P.CopyMessages(toCopy, dest), P.Caller)];
    }

    /** Move posts the copy with a callback that knows the uids; the deletion waits for the copy's Done. */
    method Move(toMove: seq<Uid>, dest: string, createDest: bool)
      modifies this`deleted, this`posted, this`updates
      ensures deleted == old(deleted) + ToSet(toMove)
      ensures posted == old(posted) + P.MovePosts(toMove, dest, createDest)
      ensures updates == old(updates) + 1
    {
      MarkDeleted(toMove);
      if createDest {
        posted := posted + [P.Post(P.CreateDirectory(dest), P.Nobody)];
      }
      posted := posted + [P.Post(P.CopyMessages(toMove, dest), P.ThenDelete(toMove))];
      updates := updates + 1;
    }

    /**
     The callback Move gives the copy action; what it posts is what the runs of moves are
     made of.  The result says whether the caller's own callback is run now: on a Done it
     goes with the deletion instead.
     */
    method OnCopyReply(toMove: seq<Uid>, reply: Reply) returns (callerTold: bool)
      modifies this`posted
      ensures posted == old(posted) + P.ReplyPosts(toMove, reply.Done?)
      ensures callerTold <==> reply.Error?
    {
      match reply
      case Error => callerTold := true;
      case Done =>
        callerTold := false;
        posted := posted + [P.Post(P.DeleteMessages(toMove), P.Caller)];
      case Other => callerTold := false;
    }
  }

  lemma {:induction false} FirstIndex(s: seq<Uid>, i: nat)
    requires i < |s| && s[i] !in s[..i]
    ensures C.IndexIn(s, s[i]) == i
  {
    if i > 0 {
      var rest := s[1..];
      assert s[0] in s[..i];
      forall k | 0 <= k < i - 1 ensures rest[k] != s[i] {
        assert s[..i][k + 1] == rest[k];
      }
      FirstIndex(rest, i - 1);
    }
  }

  lemma KeptStep(list: seq<Uid>, i: nat, toDelete: set<Uid>)
    requires i < |list|
    ensures Kept(list[..i + 1], toDelete)
         == Kept(list[..i], toDelete) + if list[i] in toDelete then [] else [list[i]]
  {
    assert list[..i + 1] == list[..i] + [list[i]];
    FilterAppend(list[..i], [list[i]], NotIn(toDelete));
  }

  class List {
    var store: Store
    var nmsgs: nat

    constructor (store: Store)
      ensures this.store == store && nmsgs == |C.Shown(store.View())|
    {
      this.store := store;
      nmsgs := |if store.filter then store.results else store.uids|;
    }

    /** storeUpdate, run after every update of the list's own store. */
    method StoreUpdate()
      modifies this`nmsgs, store`selected, store`marked, store`visualMarkMode, store`visualStartUid, store`resultIndex
      ensures store == old(store)
      ensures store.View() == C.StoreUpdate(old(store.View()), old(nmsgs))
      ensures nmsgs == C.NewCount(old(store.View()), old(nmsgs))
    {
      var list := store.Uids();
      ghost var v := store.View();
      if |list| > 0 {
        if |list| > nmsgs && nmsgs != 0 {
          for i := 0 to |list| - nmsgs
            invariant store.View() == C.Repeat(v, 1, i)
            invariant nmsgs == old(nmsgs) && store == old(store)
          {
            store.NextPrev(1);
          }
        }
        if |list| < nmsgs && nmsgs != 0 {
          for i := 0 to nmsgs - |list|
            invariant store.View() == C.Repeat(v, -1, i)
            invariant nmsgs == old(nmsgs) && store == old(store)
          {
            store.NextPrev(-1);
          }
        }
        nmsgs := |list|;
      }
    }

    /** A message of the worker reaches the store, and the list follows. */
    method OnMessage(msg: Message)
      modifies this`nmsgs, store
      ensures store == old(store)
      ensures msg.MessagesDeleted? ==>
        store.View() == C.StoreUpdate(C.Shrunk(old(store.View()), msg.deletedUids), old(nmsgs))
      ensures msg.DirectoryContents? ==>
        store.View() == C.StoreUpdate(old(store.View()).(uids := msg.uids), old(nmsgs))
      ensures store.uids == StoreContents.Update(old(store.Contents()), msg).uids
      ensures store.messages == StoreContents.Update(old(store.Contents()), msg).messages
    {
      var update, directoryChange := store.Update(msg);
      if update {
        StoreUpdate();
      }
    }
  }
}
