/**
 Moves, copies and deletions that nothing disturbs, from the store's call to the last
 reply (Move, Copy and Delete of lib/msgstore.go; worker/maildir/worker.go).
 */
module MoveSuccess {
  import opened Collections
  import opened UidStore
  import opened MaildirMove
  import opened StorePosts
  import opened MoveRuns

  lemma {:induction false} ExecAppend(start: State, a: seq<Event>, b: seq<Event>)
    requires Exec(start, a).Some?
    ensures Exec(start, a + b) == Exec(Exec(start, a).value, b)
  {
    if b == [] {
      assert a + b == a;
    } else {
      var front, e := b[..|b| - 1], b[|b| - 1];
      assert (a + b)[..|a + b| - 1] == a + front;
      ExecAppend(start, a, front);
    }
  }

  /** Nothing is going on. */
  predicate AtRest(s: State) {
    s.busy.Idle? && s.actions == [] && s.replies == []
  }

  // What is posted

  lemma PostOneOf(s: State, p: Post)
    ensures PostAll(s, [p]) == PostOne(s, p)
  {
    assert [p][1..] == [];
    assert PostAll(PostOne(s, p), []) == PostOne(s, p);
  }

  lemma PostTwo(s: State, p: Post, q: Post)
    ensures PostAll(s, [p, q]) == PostOne(PostOne(s, p), q)
  {
    assert [p, q][1..] == [q];
    PostOneOf(PostOne(s, p), q);
  }

  /**
   What a move or a copy has posted, whatever else is queued: if asked for, the creation of
   the destination first, and then the copy; and only a move's copy has a deletion waiting
   for its reply.
   */
  ghost predicate Queued(s: State, e: Event, t: State)
    requires e.Move? || e.Copy?
  {
    var id := if e.createDest then s.lastId + 2 else s.lastId + 1;
    && t == s.(actions := t.actions, waiting := t.waiting, lastId := id)
    && t.actions == s.actions
         + (if e.createDest then [Action(id - 1, CreateDirectory(e.dest))] else [])
         + [Action(id, CopyMessages(e.uids, e.dest))]
    && t.waiting == if e.Move? then s.waiting[id := e.uids] else s.waiting
  }

  lemma PostedActions(s: State, e: Event)
    requires Enabled(s, e) && (e.Move? || e.Copy?)
    ensures Queued(s, e, Apply(s, e))
  {
    var copy := Post(CopyMessages(e.uids, e.dest), if e.Move? then ThenDelete(e.uids) else Caller);
    var create := Post(CreateDirectory(e.dest), if e.Move? then Nobody else Caller);
    if e.createDest {
      assert [create] + [copy] == [create, copy];
      PostTwo(s, create, copy);
    } else {
      assert [] + [copy] == [copy];
      PostOneOf(s, copy);
      assert s.actions + [] == s.actions;
    }
  }

  function WithDir(b: Box, dir: Dir): Box {
    if dir in b.files then b else b.(files := b.files[dir := {}])
  }

  /** The directory is created, and the reply handled. */
  lemma Creates(s: State, id: int, dest: Dir, a: Action)
    requires s.actions == [Action(id, CreateDirectory(dest)), a] && s.replies == [] && s.busy == Idle && id !in s.waiting
    ensures Exec(s, [Created(true), Process]) == Some(s.(actions := [a], box := WithDir(s.box, dest)))
  {
    assert s.actions[1..] == [a];
    assert [] + [Created(true)] == [Created(true)];
    ExecSnoc(s, [], Created(true));
    var t := Apply(s, Created(true));
    assert t.replies == [Reply(id, true)] && t.replies[1..] == [];
    assert [Created(true)] + [Process] == [Created(true), Process];
    ExecSnoc(s, [Created(true)], Process);
  }

  function Creating(createDest: bool): seq<Event> {
    if createDest then [Created(true), Process] else []
  }

  /** The copy is the next thing the worker does, and the only one. */
  ghost predicate Posted(s: State, t: State, e: Event)
    requires e.Move? || e.Copy?
  {
    && t.actions == [Action(t.lastId, CopyMessages(e.uids, e.dest))] && t.replies == [] && t.busy.Idle?
    && t.box == (if e.createDest then WithDir(s.box, e.dest) else s.box)
    && t.table == s.table && t.selected == s.selected && t.lastId + 1 !in t.waiting
    && if e.Move? then t.lastId in t.waiting && t.waiting[t.lastId] == e.uids else t.lastId !in t.waiting
  }

  /** Nothing waits for an id that has not been given out. */
  lemma IdsGivenOut(s: State)
    requires Inv(s)
    ensures forall id :: id in s.waiting ==> id <= s.lastId
  {
  }

  lemma PostedAndCreated(s: State, e: Event)
    requires Inv(s) && AtRest(s) && Enabled(s, e) && (e.Move? || e.Copy?)
    ensures var run := [e] + Creating(e.createDest);
      Exec(s, run).Some? && Posted(s, Exec(s, run).value, e)
  {
    IdsGivenOut(s);
    PostedActions(s, e);
    assert [] + [e] == [e];
    ExecSnoc(s, [], e);
    if e.createDest {
      CreatedAtRest(s, e, Apply(s, e));
      ExecAppend(s, [e], Creating(true));
    } else {
      PostedAtRest(s, e, Apply(s, e));
      assert [e] + Creating(false) == [e];
    }
  }

  lemma CreatedAtRest(s: State, e: Event, t: State)
    requires AtRest(s) && (e.Move? || e.Copy?) && e.createDest && Queued(s, e, t)
    requires forall id :: id in s.waiting ==> id <= s.lastId
    ensures Exec(t, Creating(true)).Some? && Posted(s, Exec(t, Creating(true)).value, e)
  {
    var copy := Action(t.lastId, CopyMessages(e.uids, e.dest));
    assert t.actions == [Action(t.lastId - 1, CreateDirectory(e.dest)), copy];
    Creates(t, t.lastId - 1, e.dest, copy);
  }

  lemma PostedAtRest(s: State, e: Event, t: State)
    requires AtRest(s) && (e.Move? || e.Copy?) && !e.createDest && Queued(s, e, t)
    requires forall id :: id in s.waiting ==> id <= s.lastId
    ensures Posted(s, t, e)
  {
    assert t.actions == [Action(t.lastId, CopyMessages(e.uids, e.dest))];
  }

  // Copying

  /** The worker has answered the copy. */
  ghost predicate Answered(s: State, t: State, uids: seq<Uid>, dest: Dir, os: seq<Outcome>)
    requires |uids| == |os|
  {
    && t.actions == [] && t.replies == [Reply(s.lastId, true)] && t.busy.Idle?
    && t.waiting == s.waiting && t.lastId == s.lastId && t.selected == s.selected && t.table == s.table
    && t.box == CopyRun(s.box, s.table, dest, s.selected, uids, os).0
  }

  lemma CopiesAnswered(s: State, uids: seq<Uid>, dest: Dir, os: seq<Outcome>)
    requires s.actions == [Action(s.lastId, CopyMessages(uids, dest))] && s.replies == [] && s.busy.Idle?
    requires |uids| == |os| && Fresh(s.box, s.table, os)
    requires CopyRun(s.box, s.table, dest, s.selected, uids, os).1
    ensures var run := [Take] + CopySteps(os) + [CopyEnd];
      Exec(s, run).Some? && Answered(s, Exec(s, run).value, uids, dest, os)
  {
    assert uids[..|uids|] == uids && os[..|os|] == os;
    CopiesSoFar(s, uids, os, |os|);
    var copied := Exec(s, [Take] + CopySteps(os)).value;
    CopyEndAnswers(copied);
    ExecSnoc(s, [Take] + CopySteps(os), CopyEnd);
    assert s.replies + [Reply(s.lastId, true)] == [Reply(s.lastId, true)] && s.actions[1..] == [];
  }

  /** The reply to a move's finished copy, handled. */
  lemma DonePosts(s: State, id: int, uids: seq<Uid>)
    requires s.replies == [Reply(id, true)] && s.actions == [] && id in s.waiting && s.waiting[id] == uids
    ensures var t := Apply(s, Process);
      && t.actions == [Action(s.lastId + 1, DeleteMessages(uids))] && t.replies == [] && t.lastId == s.lastId + 1
      && t.waiting == s.waiting - {id} && t.busy == s.busy && t.selected == s.selected
      && t.table == s.table && t.box == s.box
  {
    var p := Post(DeleteMessages(uids), Caller);
    var t := s.(replies := s.replies[1..], waiting := s.waiting - {id});
    assert s.replies[1..] == [];
    PostOneOf(t, p);
    assert [] + [Action(s.lastId + 1, DeleteMessages(uids))] == [Action(s.lastId + 1, DeleteMessages(uids))];
  }

  /** The copy is done and the store has posted the deletion. */
  ghost predicate CopiedForMove(s: State, t: State, uids: seq<Uid>, dest: Dir, os: seq<Outcome>)
    requires |uids| == |os|
  {
    && t.actions == [Action(s.lastId + 1, DeleteMessages(uids))] && t.replies == [] && t.busy.Idle?
    && t.lastId == s.lastId + 1 && t.lastId !in t.waiting && t.selected == s.selected && t.table == s.table
    && t.box == CopyRun(s.box, s.table, dest, s.selected, uids, os).0
  }

  lemma MoveCopies(s: State, uids: seq<Uid>, dest: Dir, os: seq<Outcome>)
    requires s.actions == [Action(s.lastId, CopyMessages(uids, dest))] && s.replies == [] && s.busy.Idle?
    requires s.lastId in s.waiting && s.waiting[s.lastId] == uids && s.lastId + 1 !in s.waiting
    requires |uids| == |os| && Fresh(s.box, s.table, os) && CopyRun(s.box, s.table, dest, s.selected, uids, os).1
    ensures var run := [Take] + CopySteps(os) + [CopyEnd] + [Process];
      Exec(s, run).Some? && CopiedForMove(s, Exec(s, run).value, uids, dest, os)
  {
    var run := [Take] + CopySteps(os) + [CopyEnd];
    CopiesAnswered(s, uids, dest, os);
    AnswerPosts(s, Exec(s, run).value, uids, dest, os);
    ExecSnoc(s, run, Process);
  }

  lemma AnswerPosts(s: State, t: State, uids: seq<Uid>, dest: Dir, os: seq<Outcome>)
    requires |uids| == |os| && Answered(s, t, uids, dest, os)
    requires s.lastId in s.waiting && s.waiting[s.lastId] == uids && s.lastId + 1 !in s.waiting
    ensures CopiedForMove(s, Apply(t, Process), uids, dest, os)
  {
    DonePosts(t, s.lastId, uids);
  }

  /** A reply nobody waits for to post anything. */
  lemma Ignored(s: State, r: Reply)
    requires s.replies == [r] && r.to !in s.waiting
    ensures Apply(s, Process) == s.(replies := [])
  {
    assert s.replies[1..] == [];
  }

  /** Every message has its copy in the destination. */
  ghost predicate AllCopied(s: State, t: State, uids: seq<Uid>, dest: Dir, os: seq<Outcome>)
    requires |os| == |uids|
  {
    && dest in t.box.files
    && forall i :: 0 <= i < |uids| ==>
         && os[i].Copied? && uids[i] in s.table.keyByUid && s.table.keyByUid[uids[i]] in s.box.names
         && os[i].key in t.box.files[dest] && os[i].key in t.box.names
         && t.box.names[os[i].key] == s.box.names[s.table.keyByUid[uids[i]]]
  }

  /** What is asked of the messages and of the file system: different messages that are there, and no failures. */
  ghost predicate Possible(s: State, uids: seq<Uid>, dest: Dir, createDest: bool, os: seq<Outcome>) {
    && s.selected in s.box.files && (forall u :: u in uids ==> HasFile(s.box, s.table, s.selected, u))
    && (createDest || dest in s.box.files)
    && |os| == |uids| && Fresh(s.box, s.table, os) && forall i :: 0 <= i < |os| ==> os[i].Copied?
  }

  /** Nothing is lost, and the messages and their copies are there. */
  ghost predicate AllThere(t: State, b: Box, e: Event, os: seq<Outcome>)
    requires (e.Move? || e.Copy?) && |os| == |e.uids|
  {
    && NothingLost(t.box, b)
    && (forall u :: u in e.uids ==> HasFile(b, t.table, t.selected, u))
    && forall i :: 0 <= i < |e.uids| ==> os[i].Copied? && CopyIsThere(b, t.table, e.dest, e.uids[i], os[i].key)
  }

  /** After the posting and the creation all copies succeed. */
  lemma PostedCopies(s: State, t: State, e: Event, os: seq<Outcome>)
    requires Inv(s) && (e.Move? || e.Copy?) && Posted(s, t, e) && Possible(s, e.uids, e.dest, e.createDest, os)
    ensures Fresh(t.box, t.table, os)
    ensures CopyRun(t.box, t.table, e.dest, t.selected, e.uids, os).1
    ensures AllThere(t, CopyRun(t.box, t.table, e.dest, t.selected, e.uids, os).0, e, os)
  {
    forall i | 0 <= i < |os| ensures NewKeys(t.box, t.table, os[i]) {
      assert NewKeys(s.box, s.table, os[i]);
    }
    forall i | 0 <= i < |e.uids| ensures CopyWorks(t.box, t.table, e.dest, t.selected, e.uids[i], os[i]) {
      assert e.uids[i] in e.uids;
      assert Named(s.box, s.seen, s.table.keyByUid[e.uids[i]]);
    }
    CopyRunWorksIff(t.box, t.table, e.dest, t.selected, e.uids, os);
    CopyRunKeeps(t.box, t.table, e.dest, t.selected, e.uids, os);
    forall i | 0 <= i < |e.uids| ensures HasFile(CopyRun(t.box, t.table, e.dest, t.selected, e.uids, os).0, t.table, t.selected, e.uids[i]) {
      assert e.uids[i] in e.uids;
    }
  }

  /**
   A copy that nothing disturbs.  The destination is created first if so asked; then every
   message has its copy there, nothing else has changed, and nothing is left to do.
   */
  lemma CopySucceedsAlone(s: State, e: Event, os: seq<Outcome>)
    requires Inv(s) && AtRest(s) && e.Copy? && Enabled(s, e) && Possible(s, e.uids, e.dest, e.createDest, os)
    ensures var run := ([e] + Creating(e.createDest)) + ([Take] + CopySteps(os) + [CopyEnd] + [Process]);
      && Exec(s, run).Some?
      && var t := Exec(s, run).value;
         && AtRest(t) && AllCopied(s, t, e.uids, e.dest, os)
         && forall d :: d in s.box.files ==> d in t.box.files && s.box.files[d] <= t.box.files[d]
  {
    var posting := [e] + Creating(e.createDest);
    PostedAndCreated(s, e);
    var s1 := Exec(s, posting).value;
    PostedCopies(s, s1, e, os);
    CopiesAnswered(s1, e.uids, e.dest, os);
    var copying := [Take] + CopySteps(os) + [CopyEnd];
    Ignored(Exec(s1, copying).value, Reply(s1.lastId, true));
    ExecSnoc(s1, copying, Process);
    ExecAppend(s, posting, copying + [Process]);
    CopiesAreThere(s, s1, Exec(s1, copying).value, e, os);
  }

  lemma CopiesAreThere(s: State, s1: State, t: State, e: Event, os: seq<Outcome>)
    requires Inv(s) && (e.Move? || e.Copy?) && Posted(s, s1, e) && Possible(s, e.uids, e.dest, e.createDest, os)
    requires AllThere(s1, t.box, e, os) && t.table == s.table
    ensures AllCopied(s, t, e.uids, e.dest, os)
    ensures forall d :: d in s.box.files ==> d in t.box.files && s.box.files[d] <= t.box.files[d]
  {
    forall i | 0 <= i < |e.uids|
      ensures e.uids[i] in s.table.keyByUid && s.table.keyByUid[e.uids[i]] in s.box.names
    {
      assert e.uids[i] in e.uids;
      assert Named(s.box, s.seen, s.table.keyByUid[e.uids[i]]);
    }
  }

  // Deleting

  /** Different uids' files that are all there can all be removed. */
  lemma {:induction false} AllRemoved(b: Box, t: Table, dir: Dir, uids: seq<Uid>, oks: seq<bool>)
    requires |uids| == |oks| && Distinct(uids) && Inverse(t)
    requires forall i :: 0 <= i < |uids| ==> HasFile(b, t, dir, uids[i]) && oks[i]
    ensures RemoveRun(b, t, dir, uids, oks).1 == |uids|
  {
    if uids != [] {
      var n := |uids| - 1;
      var front := uids[..n];
      AllRemoved(b, t, dir, front, oks[..n]);
      RemoveRunRemoves(b, t, dir, front, oks[..n]);
      assert front[..n] == front;
      var key := t.keyByUid[uids[n]];
      forall u | u in front && u in t.keyByUid ensures t.keyByUid[u] != key {
        assert u != uids[n];
      }
    }
  }

  lemma Deletes(s: State, id: int, uids: seq<Uid>, oks: seq<bool>)
    requires s.actions == [Action(id, DeleteMessages(uids))] && s.replies == [] && s.busy.Idle? && id !in s.waiting
    requires |uids| == |oks| && RemoveRun(s.box, s.table, s.selected, uids, oks).1 == |uids|
    ensures var run := [Take] + RemoveSteps(oks) + [RemoveEnd] + [Process];
      && Exec(s, run).Some?
      && var t := Exec(s, run).value;
         AtRest(t) && t.box == RemoveRun(s.box, s.table, s.selected, uids, oks).0
  {
    assert uids[..|uids|] == uids && oks[..|oks|] == oks;
    RemovalsSoFar(s, uids, oks, |oks|);
    ExecSnoc(s, [Take] + RemoveSteps(oks), RemoveEnd);
    var t := Exec(s, [Take] + RemoveSteps(oks) + [RemoveEnd]).value;
    assert s.actions[1..] == [] && [] + [Reply(id, true)] == [Reply(id, true)];
    Ignored(t, Reply(id, true));
    ExecSnoc(s, [Take] + RemoveSteps(oks) + [RemoveEnd], Process);
  }

  function AllWork(n: nat): (oks: seq<bool>)
    ensures |oks| == n && forall i :: 0 <= i < n ==> oks[i]
  {
    seq(n, _ => true)
  }

  /** The worker takes the deletion and removes every file. */
  lemma DeletesAll(s: State, id: int, uids: seq<Uid>)
    requires s.actions == [Action(id, DeleteMessages(uids))] && s.replies == [] && s.busy.Idle? && id !in s.waiting
    requires Distinct(uids) && Inverse(s.table) && forall u :: u in uids ==> HasFile(s.box, s.table, s.selected, u)
    ensures var run := [Take] + RemoveSteps(AllWork(|uids|)) + [RemoveEnd] + [Process];
      && Exec(s, run).Some?
      && var t := Exec(s, run).value;
         AtRest(t) && Removed(s.box, t.box, s.table, s.selected, uids)
  {
    AllRemoved(s.box, s.table, s.selected, uids, AllWork(|uids|));
    RemoveRunRemoves(s.box, s.table, s.selected, uids, AllWork(|uids|));
    assert uids[..|uids|] == uids;
    Deletes(s, id, uids, AllWork(|uids|));
  }

  /** A deletion of the user's that nothing disturbs: exactly these files of the folder are gone. */
  lemma DeleteSucceedsAlone(s: State, uids: seq<Uid>)
    requires Inv(s) && AtRest(s) && Distinct(uids) && forall u :: u in uids ==> HasFile(s.box, s.table, s.selected, u)
    ensures Enabled(s, Delete(uids))
    ensures var run := [Delete(uids)] + ([Take] + RemoveSteps(AllWork(|uids|)) + [RemoveEnd] + [Process]);
      && Exec(s, run).Some?
      && AtRest(Exec(s, run).value)
      && Removed(s.box, Exec(s, run).value.box, s.table, s.selected, uids)
  {
    var t := Apply(s, Delete(uids));
    assert [] + [Delete(uids)] == [Delete(uids)];
    ExecSnoc(s, [], Delete(uids));
    assert [] + [Action(t.lastId, DeleteMessages(uids))] == [Action(t.lastId, DeleteMessages(uids))];
    DeletesAll(t, t.lastId, uids);
    ExecAppend(s, [Delete(uids)], [Take] + RemoveSteps(AllWork(|uids|)) + [RemoveEnd] + [Process]);
  }

  // Moving

  /** Every file is gone from where it was, and a copy of it is in the destination. */
  ghost predicate AllMoved(s: State, t: State, uids: seq<Uid>, dest: Dir, os: seq<Outcome>)
    requires |os| == |uids|
  {
    && s.selected in t.box.files && dest in t.box.files
    && forall i :: 0 <= i < |uids| ==>
         && os[i].Copied? && uids[i] in s.table.keyByUid && s.table.keyByUid[uids[i]] in s.box.names
         && s.table.keyByUid[uids[i]] !in t.box.files[s.selected]
         && os[i].key in t.box.files[dest] && os[i].key in t.box.names
         && t.box.names[os[i].key] == s.box.names[s.table.keyByUid[uids[i]]]
  }

  /**
   A move that nothing disturbs, of different messages.  The destination is created first
   if so asked; and it ends with nothing left to do, each file gone from its directory,
   and a copy of each in the destination.
   */
  lemma MoveSucceeds(s: State, e: Event, os: seq<Outcome>)
    requires Inv(s) && AtRest(s) && e.Move? && Enabled(s, e) && Distinct(e.uids)
    requires Possible(s, e.uids, e.dest, e.createDest, os)
    ensures var run := ([e] + Creating(e.createDest))
        + (([Take] + CopySteps(os) + [CopyEnd] + [Process])
           + ([Take] + RemoveSteps(AllWork(|os|)) + [RemoveEnd] + [Process]));
      && Exec(s, run).Some?
      && AtRest(Exec(s, run).value) && AllMoved(s, Exec(s, run).value, e.uids, e.dest, os)
  {
    var posting := [e] + Creating(e.createDest);
    var copying := [Take] + CopySteps(os) + [CopyEnd] + [Process];
    var deleting := [Take] + RemoveSteps(AllWork(|os|)) + [RemoveEnd] + [Process];
    MoveCopied(s, e, os);
    MoveDeletes(s, Exec(s, posting + copying).value, e, os);
    ExecAppend(s, posting + copying, deleting);
    Assoc(posting, copying, deleting);
  }

  /** The copies are made and the store has posted the deletion. */
  ghost predicate HalfMoved(s: State, s2: State, e: Event, os: seq<Outcome>)
    requires e.Move? && |os| == |e.uids|
  {
    && s2.actions == [Action(s2.lastId, DeleteMessages(e.uids))] && s2.replies == [] && s2.busy.Idle?
    && s2.lastId !in s2.waiting && s2.table == s.table && s2.selected == s.selected && s.selected in s2.box.files
    && AllCopied(s, s2, e.uids, e.dest, os) && forall u :: u in e.uids ==> HasFile(s2.box, s2.table, s2.selected, u)
  }

  /** The first half of a move. */
  lemma MoveCopied(s: State, e: Event, os: seq<Outcome>)
    requires Inv(s) && AtRest(s) && e.Move? && Enabled(s, e) && Possible(s, e.uids, e.dest, e.createDest, os)
    ensures var run := ([e] + Creating(e.createDest)) + ([Take] + CopySteps(os) + [CopyEnd] + [Process]);
      Exec(s, run).Some? && HalfMoved(s, Exec(s, run).value, e, os)
  {
    var posting := [e] + Creating(e.createDest);
    PostedAndCreated(s, e);
    var s1 := Exec(s, posting).value;
    PostedCopies(s, s1, e, os);
    var copying := [Take] + CopySteps(os) + [CopyEnd] + [Process];
    MoveCopies(s1, e.uids, e.dest, os);
    CopiesAreThere(s, s1, Exec(s1, copying).value, e, os);
    ExecAppend(s, posting, copying);
  }

  /** The second half of a move. */
  lemma MoveDeletes(s: State, s2: State, e: Event, os: seq<Outcome>)
    requires e.Move? && Distinct(e.uids) && |os| == |e.uids| && Fresh(s.box, s.table, os) && Inverse(s.table)
    requires HalfMoved(s, s2, e, os)
    ensures var run := [Take] + RemoveSteps(AllWork(|os|)) + [RemoveEnd] + [Process];
      Exec(s2, run).Some? && AtRest(Exec(s2, run).value) && AllMoved(s, Exec(s2, run).value, e.uids, e.dest, os)
  {
    DeletesAll(s2, s2.lastId, e.uids);
    var run := [Take] + RemoveSteps(AllWork(|os|)) + [RemoveEnd] + [Process];
    CopiesSurvive(s, s2, Exec(s2, run).value, e.uids, e.dest, os);
  }

  lemma CopiesSurvive(s: State, s2: State, t: State, uids: seq<Uid>, dest: Dir, os: seq<Outcome>)
    requires |os| == |uids| && AllCopied(s, s2, uids, dest, os) && Fresh(s.box, s.table, os) && Inverse(s.table)
    requires s.selected in s2.box.files && Removed(s2.box, t.box, s.table, s.selected, uids)
    ensures AllMoved(s, t, uids, dest, os)
  {
    forall i | 0 <= i < |uids|
      ensures s.table.keyByUid[uids[i]] !in t.box.files[s.selected]
      ensures os[i].key in t.box.files[dest] && os[i].key in t.box.names
      ensures t.box.names[os[i].key] == s.box.names[s.table.keyByUid[uids[i]]]
    {
      assert uids[i] in uids && NamesKey(s.table, uids, s.table.keyByUid[uids[i]]);
      assert NewKeys(s.box, s.table, os[i]);
      assert !NamesKey(s.table, uids, os[i].key);
    }
  }
}
