/**
 Every run of moves over maildirs: the interface thread posts moves, copies and
 deletions and handles replies (lib/msgstore.go), the worker takes one action at a time
 and touches one file at a time (worker/maildir/worker.go), folders are created and
 opened, directories scanned and mail delivered in between.

 The question is whether a move can lose a message, whatever fails and whatever
 comes between its copy and its delete.
 */
module MoveRuns {
  import opened Collections
  import opened UidStore
  import opened MaildirMove
  import opened StorePosts

  datatype Action = Action(id: int, request: Request)

  /** The answer to an action: Done, or Error. */
  datatype Reply = Reply(to: int, done: bool)

  /** What the worker is in the middle of.  made lists the keys of the copies so far. */
  datatype Busy =
    | Idle
    | Copying(id: int, src: Dir, dest: Dir, uids: seq<Uid>, made: seq<Key>)
    | Deleting(id: int, dir: Dir, uids: seq<Uid>, n: nat)

  /**
   waiting holds the callbacks of moves: what to delete once the copy is Done.  The
   last five fields are histories: the keys whose deletion a finished copy has allowed,
   those the user's own deletions have named, the mails of which these two have left no
   file, the mails there ever were, and the copies made by moves.
   */
  datatype State = State(
    box: Box, table: Table, counter: nat, selected: Dir,
    actions: seq<Action>, replies: seq<Reply>, waiting: map<int, seq<Uid>>, lastId: int, busy: Busy,
    doomed: set<Key>, allowed: set<Key>, condemned: set<Mail>, seen: set<Mail>, copies: set<(Key, Dir, Key)>)

  datatype Event =
    | Move(uids: seq<Uid>, dest: Dir, createDest: bool)   // MessageStore.Move
    | Copy(uids: seq<Uid>, dest: Dir, createDest: bool)   // MessageStore.Copy
    | Delete(uids: seq<Uid>)                              // MessageStore.Delete
    | Open(dir: Dir)
    | Fetch
    | Process                                             // the interface handles the next reply
    | Take                                                // the worker takes the next copy or deletion
    | Created(ok: bool)                                   // the worker creates the directory it is told
    | Opened(ok: bool, switched: bool, keys: seq<Key>)    // and opens one, which may fail halfway
    | Fetched(ok: bool, keys: seq<Key>)
    | CopyStep(outcome: Outcome)                          // one copy
    | CopyEnd
    | RemoveStep(ok: bool)
    | RemoveEnd
    | Notice(dir: Dir, keys: seq<Key>)                    // the worker scans a directory, for counts or changes
    | Arrive(dir: Dir, key: Key, mail: Mail)              // another program delivers or links a file
    | OtherStores(n: nat)                                 // other stores draw uids

  /** Registers keys one after the other. */
  function Scan(t: Table, counter: nat, keys: seq<Key>): (Table, nat)
    decreases |keys|
  {
    if keys == [] then (t, counter)
    else if keys[0] in t.uidByKey then Scan(t, counter, keys[1..])
    else Scan(Insert(t, keys[0], NextUid(counter)), counter + 1, keys[1..])
  }

  predicate FilesOf(b: Box, dir: Dir, keys: seq<Key>) {
    forall k :: k in keys ==> dir in b.files && k in b.files[dir]
  }

  predicate Known(t: Table, uids: seq<Uid>) {
    forall u :: u in uids ==> u in t.keyByUid
  }

  /** The worker is about to start on an action. */
  predicate Next(s: State) {
    s.busy.Idle? && |s.actions| > 0
  }

  /** Uids come from the worker; and a scan may see any files of its directory. */
  predicate Enabled(s: State, e: Event) {
    match e
    case Move(uids, _, _) => Known(s.table, uids)
    case Copy(uids, _, _) => Known(s.table, uids)
    case Delete(uids) => Known(s.table, uids)
    case Open(_) => true
    case Fetch => true
    case Process => |s.replies| > 0
    case Take => Next(s) && (s.actions[0].request.CopyMessages? || s.actions[0].request.DeleteMessages?)
    case Created(_) => Next(s) && s.actions[0].request.CreateDirectory?
    case Opened(ok, switched, keys) =>
      && Next(s) && s.actions[0].request.OpenDirectory?
      && (ok ==> switched) && (switched ==> s.actions[0].request.dir in s.box.files)
      && FilesOf(s.box, s.actions[0].request.dir, keys)
    case Fetched(_, keys) => Next(s) && s.actions[0].request.FetchDirectoryContents? && FilesOf(s.box, s.selected, keys)
    case CopyStep(outcome) => s.busy.Copying? && |s.busy.made| < |s.busy.uids| && NewKeys(s.box, s.table, outcome)
    case CopyEnd => s.busy.Copying? && |s.busy.made| == |s.busy.uids|
    case RemoveStep(_) => s.busy.Deleting? && s.busy.n < |s.busy.uids|
    case RemoveEnd => s.busy.Deleting? && s.busy.n >= |s.busy.uids|
    case Notice(dir, keys) => FilesOf(s.box, dir, keys)
    case Arrive(dir, key, mail) => dir in s.box.files && (key in s.box.names ==> s.box.names[key] == mail)
    case OtherStores(_) => true
  }

  function KeysOf(t: Table, uids: seq<Uid>): set<Key> {
    set u | u in uids && u in t.keyByUid :: t.keyByUid[u]
  }

  function MailsOf(b: Box, keys: set<Key>): set<Mail> {
    set k | k in keys && k in b.names :: b.names[k]
  }

  function Added(s: State, dir: Dir, keys: set<Key>, mail: Mail): State {
    s.(box := AddFiles(s.box, dir, keys, mail),
       seen := if dir in s.box.files && keys != {} then s.seen + {mail} else s.seen)
  }

  function Answer(s: State, id: int, done: bool): State {
    s.(replies := s.replies + [Reply(id, done)], busy := Idle)
  }

  function Registered(s: State, keys: seq<Key>): State {
    var (t, c) := Scan(s.table, s.counter, keys);
    s.(table := t, counter := c)
  }

  function PostOne(s: State, p: Post): State {
    var id := s.lastId + 1;
    s.(lastId := id, actions := s.actions + [Action(id, p.request)],
       waiting := if p.callback.ThenDelete? then s.waiting[id := p.callback.toDelete] else s.waiting)
  }

  function PostAll(s: State, posts: seq<Post>): State
    decreases |posts|
  {
    if posts == [] then s else PostAll(PostOne(s, posts[0]), posts[1..])
  }

  /** A file of the mail that no finished copy and no deletion of the user's has released. */
  ghost predicate Held(s: State, m: Mail) {
    exists d, k :: IsHeld(s, m, d, k)
  }

  predicate IsHeld(s: State, m: Mail, d: Dir, k: Key) {
    && d in s.box.files && k in s.box.files[d] && k in s.box.names && s.box.names[k] == m
    && k !in s.doomed && k !in s.allowed
  }

  /** The user has deleted what was left: of the mails of these keys those no longer held. */
  ghost function Condemn(s: State, keys: set<Key>): State {
    s.(condemned := s.condemned + set m | m in MailsOf(s.box, keys) && !Held(s, m))
  }

  /** The user names files to be deleted. */
  ghost function UserDeletes(s: State, keys: set<Key>): State {
    Condemn(s.(allowed := s.allowed + keys), keys)
  }

  /** A finished copy releases its originals; a copy the user has already deleted holds nothing. */
  ghost function Release(s: State): State
    requires s.busy.Copying? && |s.busy.made| == |s.busy.uids|
  {
    Condemn(s.(doomed := s.doomed + KeysOf(s.table, s.busy.uids)), ToSet(s.busy.made) * s.allowed)
  }

  ghost function Apply(s: State, e: Event): State
    requires Enabled(s, e)
  {
    match e
    case Move(uids, dest, createDest) => PostAll(s, MovePosts(uids, dest, createDest))
    case Copy(uids, dest, createDest) => PostAll(s, CopyPosts(uids, dest, createDest))
    case Delete(uids) => PostOne(UserDeletes(s, KeysOf(s.table, uids)), Post(DeleteMessages(uids), Caller))
    case Open(dir) => PostOne(s, Post(OpenDirectory(dir), Caller))
    case Fetch => PostOne(s, Post(FetchDirectoryContents, Nobody))
    case Process =>
      var r := s.replies[0];
      var t := s.(replies := s.replies[1..]);
      if r.to in s.waiting
      then PostAll(if r.done then t.(waiting := s.waiting - {r.to}) else t, ReplyPosts(s.waiting[r.to], r.done))
      else t
    case Take =>
      var a := s.actions[0];
      s.(actions := s.actions[1..],
         busy := if a.request.CopyMessages? then Copying(a.id, s.selected, a.request.dest, a.request.uids, [])
                 else Deleting(a.id, s.selected, a.request.uids, 0))
    case Created(ok) =>
      var a := s.actions[0];
      var t := s.(actions := s.actions[1..]);
      Answer(if ok && a.request.dir !in s.box.files
             then t.(box := s.box.(files := s.box.files[a.request.dir := {}])) else t,
             a.id, ok)
    case Opened(ok, switched, keys) =>
      var a := s.actions[0];
      var t := Registered(s.(actions := s.actions[1..]), keys);
      Answer(if switched then t.(selected := a.request.dir) else t, a.id, ok)
    case Fetched(ok, keys) => Answer(Registered(s.(actions := s.actions[1..]), keys), s.actions[0].id, ok)
    case CopyStep(outcome) =>
      var b := s.busy;
      var uid := b.uids[|b.made|];
      if CopyWorks(s.box, s.table, b.dest, b.src, uid, outcome) then
        s.(box := CopyOne(s.box, s.table, b.dest, b.src, uid, outcome).0,
           busy := b.(made := b.made + [outcome.key]))
      else Answer(Added(s, b.dest, if outcome.Failed? then outcome.junk else {}, RUBBISH), b.id, false)
    case CopyEnd =>
      var b := s.busy;
      if b.id in s.waiting then
        var t := Answer(Release(s), b.id, true);
        t.(copies := s.copies + set i | 0 <= i < |b.uids| && b.uids[i] in s.table.keyByUid ::
             (s.table.keyByUid[b.uids[i]], b.dest, b.made[i]))
      else Answer(s, b.id, true)
    case RemoveStep(ok) =>
      var b := s.busy;
      if RemoveWorks(s.box, s.table, b.dir, b.uids[b.n], ok) then
        s.(box := RemoveOne(s.box, s.table, b.dir, b.uids[b.n]), busy := b.(n := b.n + 1))
      else Answer(s, b.id, false)
    case RemoveEnd => Answer(s, s.busy.id, true)
    case Notice(_, keys) => Registered(s, keys)
    case Arrive(dir, key, mail) => Added(s, dir, {key}, mail)
    case OtherStores(n) => s.(counter := s.counter + n)
  }

  predicate Present(b: Box, m: Mail) {
    exists d, k :: d in b.files && k in b.files[d] && k in b.names && b.names[k] == m
  }

  /** The key has been used, for a mail that has been seen. */
  predicate Named(b: Box, seen: set<Mail>, k: Key) {
    k in b.names && b.names[k] in seen
  }

  /** Any maildirs, an empty uid table, and nothing going on. */
  ghost predicate Start(s: State) {
    && (forall d, k :: d in s.box.files && k in s.box.files[d] ==> Named(s.box, s.seen, k))
    && s.table == EMPTY && s.actions == [] && s.replies == [] && s.waiting == map[] && s.busy.Idle?
    && s.doomed == {} && s.allowed == {} && s.condemned == {} && s.copies == {}
    && forall m :: m in s.seen ==> Present(s.box, m)
  }

  ghost function Exec(start: State, run: seq<Event>): Option<State> {
    if run == [] then Some(start)
    else
      var before := Exec(start, run[..|run| - 1]);
      if before.Some? && Enabled(before.value, run[|run| - 1])
      then Some(Apply(before.value, run[|run| - 1]))
      else None
  }

  // The invariant

  ghost predicate WellFormed(s: State) {
    && (forall d, k :: d in s.box.files && k in s.box.files[d] ==> Named(s.box, s.seen, k))
    && Inverse(s.table)
    && (forall u :: u in s.table.keyByUid ==> u <= s.counter && Named(s.box, s.seen, s.table.keyByUid[u]))
    && (forall k :: k in s.doomed || k in s.allowed ==> k in s.table.uidByKey)
    && (forall m :: m in s.condemned ==> m in MailsOf(s.box, s.allowed))
  }

  /** Only a move's own copy action carries the id its callback waits for. */
  ghost predicate IdsMatch(s: State) {
    && (forall a :: a in s.waiting ==> a <= s.lastId && Known(s.table, s.waiting[a]))
    && (forall i :: 0 <= i < |s.actions| ==> ActionMatches(s, s.actions[i]))
    && (s.busy.Idle? || (s.busy.id <= s.lastId &&
          (s.busy.id in s.waiting ==> s.busy.Copying? && s.busy.uids == s.waiting[s.busy.id])))
    && (s.busy.Copying? ==> Known(s.table, s.busy.uids))
    && (forall i :: 0 <= i < |s.replies| ==> s.replies[i].to <= s.lastId)
  }

  ghost predicate ActionMatches(s: State, a: Action) {
    && a.id <= s.lastId
    && (a.request.CopyMessages? ==> Known(s.table, a.request.uids))
    && (a.id in s.waiting ==> a.request.CopyMessages? && a.request.uids == s.waiting[a.id])
  }

  /** Deleting these files is allowed: a finished copy has released them, or the user named them. */
  ghost predicate MayGo(s: State, uids: seq<Uid>) {
    forall u :: u in uids ==>
      u in s.table.keyByUid && (s.table.keyByUid[u] in s.doomed || s.table.keyByUid[u] in s.allowed)
  }

  ghost predicate AllDoomed(s: State, uids: seq<Uid>) {
    forall u :: u in uids ==> u in s.table.keyByUid && s.table.keyByUid[u] in s.doomed
  }

  /** Whatever the worker has been or will be told to delete may go. */
  ghost predicate DeletesBacked(s: State) {
    && (forall i :: 0 <= i < |s.actions| && s.actions[i].request.DeleteMessages? ==> MayGo(s, s.actions[i].request.uids))
    && (s.busy.Deleting? ==> MayGo(s, s.busy.uids))
    && (forall i :: 0 <= i < |s.replies| && s.replies[i].done && s.replies[i].to in s.waiting ==>
          AllDoomed(s, s.waiting[s.replies[i].to]))
  }

  /** The copies made so far by the action in progress exist, and are not themselves about to go. */
  ghost predicate CopiesMade(s: State) {
    s.busy.Copying? ==>
      && |s.busy.made| <= |s.busy.uids|
      && forall i :: 0 <= i < |s.busy.made| ==>
           CopyIsThere(s.box, s.table, s.busy.dest, s.busy.uids[i], s.busy.made[i]) &&
           s.busy.made[i] !in s.doomed && s.busy.made[i] !in KeysOf(s.table, s.busy.uids)
  }

  ghost predicate AllHeld(s: State) {
    forall m :: m in s.seen && m !in s.condemned ==> Held(s, m)
  }

  ghost predicate Inv(s: State) {
    && WellFormed(s) && IdsMatch(s) && DeletesBacked(s) && CopiesMade(s) && AllHeld(s)
  }

  /** A step that changes neither files, names nor verdicts holds every mail that was held. */
  lemma SameFilesHeld(s: State, t: State)
    requires AllHeld(s) && t.seen == s.seen && s.condemned <= t.condemned
    requires t.box == s.box && t.doomed == s.doomed && t.allowed == s.allowed
    ensures AllHeld(t)
  {
    forall m | m in t.seen && m !in t.condemned ensures Held(t, m) {
      var d, k :| IsHeld(s, m, d, k);
      assert IsHeld(t, m, d, k);
    }
  }

  // Registering keys

  lemma {:induction false} ScanExtends(good: set<Key>, t: Table, counter: nat, keys: seq<Key>)
    decreases |keys|
    requires Inverse(t) && Scan(t, counter, keys).1 < WRAP
    requires forall u :: u in t.keyByUid ==> u <= counter && t.keyByUid[u] in good
    requires forall k :: k in keys ==> k in good
    ensures var (t', c) := Scan(t, counter, keys);
      && counter <= c && Inverse(t') && Extends(t, t')
      && (forall u :: u in t'.keyByUid ==> u <= c && t'.keyByUid[u] in good)
  {
    if keys != [] {
      var k := keys[0];
      assert keys == [k] + keys[1..];
      if k in t.uidByKey {
        ScanExtends(good, t, counter, keys[1..]);
      } else {
        ScanGrows(Insert(t, k, NextUid(counter)), counter + 1, keys[1..]);
        FreshBeforeWrap(t, counter);
        InsertKeepsNames(t, k, NextUid(counter));
        ScanExtends(good, Insert(t, k, NextUid(counter)), counter + 1, keys[1..]);
      }
    }
  }

  lemma {:induction false} ScanGrows(t: Table, counter: nat, keys: seq<Key>)
    decreases |keys|
    ensures Scan(t, counter, keys).1 >= counter
  {
    if keys != [] {
      if keys[0] in t.uidByKey {
        ScanGrows(t, counter, keys[1..]);
      } else {
        ScanGrows(Insert(t, keys[0], NextUid(counter)), counter + 1, keys[1..]);
      }
    }
  }

  lemma SameKeys(t: Table, t': Table, uids: seq<Uid>)
    requires Extends(t, t') && Known(t, uids)
    ensures KeysOf(t', uids) == KeysOf(t, uids) && Known(t', uids)
  {
  }

  /** Registering keys only adds names, so nothing that held stops holding. */
  lemma RegisterKeeps(s: State, keys: seq<Key>)
    requires Inv(s) && forall k :: k in keys ==> Named(s.box, s.seen, k)
    requires Registered(s, keys).counter < WRAP
    ensures Inv(Registered(s, keys))
  {
    var t := Registered(s, keys);
    var good := set k | k in s.box.names && Named(s.box, s.seen, k) :: k;
    ScanExtends(good, s.table, s.counter, keys);
    SameFilesHeld(s, t);
    forall i | 0 <= i < |t.actions| ensures ActionMatches(t, t.actions[i]) {
      assert ActionMatches(s, s.actions[i]);
    }
    if s.busy.Copying? {
      SameKeys(s.table, t.table, s.busy.uids);
    }
    RegisterKeepsDeletes(s, t);
    assert WellFormed(t);
    assert IdsMatch(t);
  }

  lemma RegisterKeepsDeletes(s: State, t: State)
    requires DeletesBacked(s) && Extends(s.table, t.table) && t == s.(table := t.table, counter := t.counter)
    ensures DeletesBacked(t)
  {
    forall i | 0 <= i < |t.actions| && t.actions[i].request.DeleteMessages? ensures MayGo(t, t.actions[i].request.uids) {
      assert MayGo(s, s.actions[i].request.uids);
    }
    forall i | 0 <= i < |t.replies| && t.replies[i].done && t.replies[i].to in t.waiting
      ensures AllDoomed(t, t.waiting[t.replies[i].to])
    {
      assert AllDoomed(s, s.waiting[s.replies[i].to]);
    }
  }

  // The interface thread

  /** Posts a worker may be given: copies of known messages, and deletions that may go. */
  ghost predicate Backed(s: State, p: Post) {
    && (p.request.CopyMessages? ==> Known(s.table, p.request.uids))
    && (p.request.DeleteMessages? ==> MayGo(s, p.request.uids))
    && (p.callback.ThenDelete? ==> p.request.CopyMessages? && p.request.uids == p.callback.toDelete)
  }

  lemma PostOneKeeps(s: State, p: Post)
    requires Inv(s) && Backed(s, p)
    ensures Inv(PostOne(s, p))
  {
    var t := PostOne(s, p);
    SameFilesHeld(s, t);
    forall i | 0 <= i < |t.actions| ensures ActionMatches(t, t.actions[i]) {
      if i < |s.actions| {
        assert ActionMatches(s, s.actions[i]);
      }
    }
    PostOneKeepsDeletes(s, p);
  }

  lemma PostOneKeepsDeletes(s: State, p: Post)
    requires Inv(s) && Backed(s, p)
    ensures DeletesBacked(PostOne(s, p))
  {
    var t := PostOne(s, p);
    forall i | 0 <= i < |t.actions| && t.actions[i].request.DeleteMessages? ensures MayGo(t, t.actions[i].request.uids) {
      assert i < |s.actions| ==> MayGo(s, s.actions[i].request.uids);
    }
    forall i | 0 <= i < |t.replies| && t.replies[i].done && t.replies[i].to in t.waiting
      ensures AllDoomed(t, t.waiting[t.replies[i].to])
    {
      assert AllDoomed(s, s.waiting[s.replies[i].to]);
    }
  }

  lemma {:induction false} PostAllKeeps(s: State, posts: seq<Post>)
    requires Inv(s) && forall i :: 0 <= i < |posts| ==> Backed(s, posts[i])
    ensures Inv(PostAll(s, posts))
    decreases |posts|
  {
    if posts != [] {
      PostOneKeeps(s, posts[0]);
      var t := PostOne(s, posts[0]);
      forall i | 0 <= i < |posts[1..]| ensures Backed(t, posts[1..][i]) {
        assert Backed(s, posts[i + 1]);
      }
      PostAllKeeps(t, posts[1..]);
    }
  }

  lemma ProcessKeeps(s: State)
    requires Inv(s) && Enabled(s, Process)
    ensures Inv(Apply(s, Process))
  {
    var r := s.replies[0];
    var t := s.(replies := s.replies[1..]);
    DropReplyKeeps(s);
    if r.to in s.waiting {
      if r.done {
        assert AllDoomed(s, s.waiting[r.to]);
        AnsweredKeeps(t, r.to);
        assert Backed(t.(waiting := t.waiting - {r.to}), Post(DeleteMessages(s.waiting[r.to]), Caller));
        PostAllKeeps(t.(waiting := t.waiting - {r.to}), ReplyPosts(s.waiting[r.to], true));
      } else {
        PostAllKeeps(t, ReplyPosts(s.waiting[r.to], false));
      }
    }
  }

  lemma DropReplyKeeps(s: State)
    requires Inv(s) && s.replies != []
    ensures Inv(s.(replies := s.replies[1..]))
  {
    var t := s.(replies := s.replies[1..]);
    SameFilesHeld(s, t);
    forall i | 0 <= i < |t.actions| ensures ActionMatches(t, t.actions[i]) {
      assert ActionMatches(s, s.actions[i]);
    }
    DropReplyKeepsDeletes(s, t);
  }

  lemma DropReplyKeepsDeletes(s: State, t: State)
    requires DeletesBacked(s) && s.replies != [] && t == s.(replies := s.replies[1..])
    ensures DeletesBacked(t)
  {
    forall i | 0 <= i < |t.actions| && t.actions[i].request.DeleteMessages? ensures MayGo(t, t.actions[i].request.uids) {
      assert MayGo(s, s.actions[i].request.uids);
    }
    forall i | 0 <= i < |t.replies| && t.replies[i].done && t.replies[i].to in t.waiting
      ensures AllDoomed(t, t.waiting[t.replies[i].to])
    {
      assert s.replies[i + 1] == t.replies[i];
      assert AllDoomed(s, s.waiting[s.replies[i + 1].to]);
    }
  }

  lemma AnsweredKeeps(s: State, id: int)
    requires Inv(s)
    ensures Inv(s.(waiting := s.waiting - {id}))
  {
    var t := s.(waiting := s.waiting - {id});
    SameFilesHeld(s, t);
    forall i | 0 <= i < |t.actions| ensures ActionMatches(t, t.actions[i]) {
      assert ActionMatches(s, s.actions[i]);
    }
    forall i | 0 <= i < |t.actions| && t.actions[i].request.DeleteMessages? ensures MayGo(t, t.actions[i].request.uids) {
      assert MayGo(s, s.actions[i].request.uids);
    }
    forall i | 0 <= i < |t.replies| && t.replies[i].done && t.replies[i].to in t.waiting
      ensures AllDoomed(t, t.waiting[t.replies[i].to])
    {
      assert AllDoomed(s, s.waiting[s.replies[i].to]);
    }
  }

  // Verdicts

  /** More verdicts, with the mails they leave without a held file condemned. */
  lemma MoreVerdicts(s: State, t: State)
    requires Inv(s) && t == s.(doomed := t.doomed, allowed := t.allowed, condemned := t.condemned)
    requires s.doomed <= t.doomed && s.allowed <= t.allowed && AllHeld(t)
    requires forall k :: k in t.doomed || k in t.allowed ==> k in t.table.uidByKey
    requires forall m :: m in t.condemned ==> m in MailsOf(t.box, t.allowed)
    requires s.busy.Copying? ==> forall i :: 0 <= i < |s.busy.made| ==> s.busy.made[i] !in t.doomed
    ensures Inv(t)
  {
    SameBacking(s, t);
  }

  lemma KeysKnown(s: State, uids: seq<Uid>)
    requires WellFormed(s)
    ensures forall k :: k in KeysOf(s.table, uids) ==> k in s.table.uidByKey && Named(s.box, s.seen, k)
  {
  }

  lemma UserDeletesKeeps(s: State, uids: seq<Uid>)
    requires Inv(s) && Known(s.table, uids)
    ensures Inv(UserDeletes(s, KeysOf(s.table, uids)))
    ensures MayGo(UserDeletes(s, KeysOf(s.table, uids)), uids)
  {
    var keys := KeysOf(s.table, uids);
    var t := UserDeletes(s, keys);
    KeysKnown(s, uids);
    forall m | m in t.seen && m !in t.condemned ensures Held(t, m) {
      var d, k :| IsHeld(s, m, d, k);
      if k in keys {
        assert m in MailsOf(s.box, keys);
        var d', k' :| IsHeld(s.(allowed := s.allowed + keys), m, d', k');
        assert IsHeld(t, m, d', k');
      } else {
        assert IsHeld(t, m, d, k);
      }
    }
    forall m | m in t.condemned ensures m in MailsOf(t.box, t.allowed) {
      if m in s.condemned {
        assert m in MailsOf(s.box, s.allowed);
      }
    }
    MoreVerdicts(s, t);
  }

  /** The originals of a finished copy are held by their copies, as far as the user has left these. */
  lemma CopiesTakeOver(s: State)
    requires Inv(s) && Enabled(s, CopyEnd)
    ensures AllHeld(Release(s))
  {
    var b, t := s.busy, Release(s);
    forall m | m in t.seen && m !in t.condemned ensures Held(t, m) {
      var d, k :| IsHeld(s, m, d, k);
      if k in KeysOf(s.table, b.uids) {
        var i :| 0 <= i < |b.uids| && b.uids[i] in s.table.keyByUid && s.table.keyByUid[b.uids[i]] == k;
        var copy := b.made[i];
        assert CopyIsThere(s.box, s.table, b.dest, b.uids[i], copy);
        if copy in s.allowed {
          assert copy in ToSet(b.made) * s.allowed;
          assert m in MailsOf(s.box, ToSet(b.made) * s.allowed);
          var d', k' :| IsHeld(s.(doomed := s.doomed + KeysOf(s.table, b.uids)), m, d', k');
          assert IsHeld(t, m, d', k');
        } else {
          assert IsHeld(t, m, b.dest, copy);
        }
      } else {
        assert IsHeld(t, m, d, k);
      }
    }
  }

  lemma ReleaseKeeps(s: State)
    requires Inv(s) && Enabled(s, CopyEnd)
    ensures Inv(Release(s))
  {
    var t := Release(s);
    CopiesTakeOver(s);
    KeysKnown(s, s.busy.uids);
    forall m | m in t.condemned ensures m in MailsOf(t.box, t.allowed) {
      if m in s.condemned {
        assert m in MailsOf(s.box, s.allowed);
      }
    }
    MoreVerdicts(s, t);
  }

  // The worker

  lemma TakeKeeps(s: State)
    requires Inv(s) && Enabled(s, Take)
    ensures Inv(Apply(s, Take))
  {
    var a, t := s.actions[0], Apply(s, Take);
    assert ActionMatches(s, a);
    assert a.request.DeleteMessages? ==> MayGo(s, a.request.uids);
    DropActionKeeps(s);
    SameFilesHeld(s, t);
    var u := s.(actions := s.actions[1..]);
    forall i | 0 <= i < |t.actions| ensures ActionMatches(t, t.actions[i]) {
      assert ActionMatches(u, u.actions[i]);
    }
    forall i | 0 <= i < |t.actions| && t.actions[i].request.DeleteMessages? ensures MayGo(t, t.actions[i].request.uids) {
      assert MayGo(u, u.actions[i].request.uids);
    }
    forall i | 0 <= i < |t.replies| && t.replies[i].done && t.replies[i].to in t.waiting
      ensures AllDoomed(t, t.waiting[t.replies[i].to])
    {
      assert AllDoomed(s, s.waiting[s.replies[i].to]);
    }
  }

  lemma DropActionKeeps(s: State)
    requires Inv(s) && |s.actions| > 0
    ensures Inv(s.(actions := s.actions[1..]))
  {
    var t := s.(actions := s.actions[1..]);
    SameFilesHeld(s, t);
    forall i | 0 <= i < |t.actions| ensures ActionMatches(t, t.actions[i]) {
      assert ActionMatches(s, s.actions[i + 1]);
    }
    forall i | 0 <= i < |t.actions| && t.actions[i].request.DeleteMessages? ensures MayGo(t, t.actions[i].request.uids) {
      assert MayGo(s, s.actions[i + 1].request.uids);
    }
    forall i | 0 <= i < |t.replies| && t.replies[i].done && t.replies[i].to in t.waiting
      ensures AllDoomed(t, t.waiting[t.replies[i].to])
    {
      assert AllDoomed(s, s.waiting[s.replies[i].to]);
    }
  }

  lemma AnswerKeeps(s: State, id: int, done: bool)
    requires Inv(s) && id <= s.lastId
    requires done && id in s.waiting ==> AllDoomed(s, s.waiting[id])
    ensures Inv(Answer(s, id, done))
  {
    var t := Answer(s, id, done);
    SameFilesHeld(s, t);
    forall i | 0 <= i < |t.actions| ensures ActionMatches(t, t.actions[i]) {
      assert ActionMatches(s, s.actions[i]);
    }
    forall i | 0 <= i < |t.actions| && t.actions[i].request.DeleteMessages? ensures MayGo(t, t.actions[i].request.uids) {
      assert MayGo(s, s.actions[i].request.uids);
    }
    forall i | 0 <= i < |t.replies| && t.replies[i].done && t.replies[i].to in t.waiting
      ensures AllDoomed(t, t.waiting[t.replies[i].to])
    {
      assert i < |s.replies| ==> AllDoomed(s, s.waiting[s.replies[i].to]);
    }
  }

  lemma SelectKeeps(s: State, dir: Dir)
    requires Inv(s)
    ensures Inv(s.(selected := dir))
  {
    var t := s.(selected := dir);
    SameFilesHeld(s, t);
    SameBacking(s, t);
  }

  predicate SameTask(b: Busy, b': Busy) {
    match (b, b')
    case (Idle, Idle) => true
    case (Copying(id, _, _, uids, _), Copying(id', _, _, uids', _)) => id' == id && uids' == uids
    case (Deleting(id, _, uids, _), Deleting(id', _, uids', _)) => id' == id && uids' == uids
    case _ => false
  }

  /** Files, folders and counters do not matter to what actions and replies are backed by. */
  lemma SameBacking(s: State, t: State)
    requires IdsMatch(s) && DeletesBacked(s) && s.doomed <= t.doomed && s.allowed <= t.allowed
    requires t.table == s.table && t.actions == s.actions && t.replies == s.replies
    requires t.waiting == s.waiting && t.lastId == s.lastId
    requires SameTask(s.busy, t.busy)
    ensures IdsMatch(t) && DeletesBacked(t)
  {
    forall i | 0 <= i < |t.actions| ensures ActionMatches(t, t.actions[i]) {
      assert ActionMatches(s, s.actions[i]);
    }
    forall i | 0 <= i < |t.actions| && t.actions[i].request.DeleteMessages? ensures MayGo(t, t.actions[i].request.uids) {
      assert MayGo(s, s.actions[i].request.uids);
    }
    forall i | 0 <= i < |t.replies| && t.replies[i].done && t.replies[i].to in t.waiting
      ensures AllDoomed(t, t.waiting[t.replies[i].to])
    {
      assert AllDoomed(s, s.waiting[s.replies[i].to]);
    }
  }

  lemma CreatedKeeps(s: State, dir: Dir)
    requires Inv(s) && dir !in s.box.files
    ensures Inv(s.(box := s.box.(files := s.box.files[dir := {}])))
  {
    var t := s.(box := s.box.(files := s.box.files[dir := {}]));
    forall m | m in t.seen && m !in t.condemned ensures Held(t, m) {
      var d, k :| IsHeld(s, m, d, k);
      assert IsHeld(t, m, d, k);
    }
    SameBacking(s, t);
    forall d, k | d in t.box.files && k in t.box.files[d] ensures Named(t.box, t.seen, k) {
      assert Named(s.box, s.seen, k);
    }
    NamesGrow(s, t);
  }

  lemma FolderKeeps(s: State, e: Event)
    requires Inv(s) && Enabled(s, e) && (e.Created? || e.Opened? || e.Fetched?) && Apply(s, e).counter < WRAP
    ensures Inv(Apply(s, e))
  {
    var a := s.actions[0];
    var s1 := s.(actions := s.actions[1..]);
    assert ActionMatches(s, a);
    DropActionKeeps(s);
    if e.Created? {
      if a.request.dir !in s.box.files {
        CreatedKeeps(s1, a.request.dir);
      }
      AnswerKeeps(if e.ok && a.request.dir !in s.box.files
                  then s1.(box := s.box.(files := s.box.files[a.request.dir := {}])) else s1,
                  a.id, e.ok);
    } else {
      RegisterKeeps(s1, e.keys);
      var s2 := Registered(s1, e.keys);
      if e.Opened? && e.switched {
        SelectKeeps(s2, a.request.dir);
        AnswerKeeps(s2.(selected := a.request.dir), a.id, e.ok);
      } else {
        AnswerKeeps(s2, a.id, e.ok);
      }
    }
  }

  lemma AddedKeeps(s: State, dir: Dir, keys: set<Key>, mail: Mail)
    requires Inv(s)
    requires forall k :: k in keys && k in s.box.names ==> s.box.names[k] == mail
    requires mail in s.seen || forall k :: k in keys ==> k !in s.doomed && k !in s.allowed
    ensures Inv(Added(s, dir, keys, mail))
  {
    var t := Added(s, dir, keys, mail);
    assert NothingLost(s.box, t.box);
    forall d, k | d in t.box.files && k in t.box.files[d] ensures Named(t.box, t.seen, k) {
      assert d in s.box.files && k in s.box.files[d] ==> Named(s.box, s.seen, k);
    }
    NamesGrow(s, t);
    forall m | m in t.seen && m !in t.condemned ensures Held(t, m) {
      if m in s.seen {
        var d, k :| IsHeld(s, m, d, k);
        assert IsHeld(t, m, d, k);
      } else {
        var k :| k in keys;
        assert IsHeld(t, m, dir, k);
      }
    }
    SameBacking(s, t);
    CopiesStay(s, t);
  }

  lemma NamesGrow(s: State, t: State)
    requires WellFormed(s) && s.seen <= t.seen && t.table == s.table && t.counter == s.counter
    requires forall k :: k in s.box.names ==> k in t.box.names && t.box.names[k] == s.box.names[k]
    requires t.doomed == s.doomed && t.allowed == s.allowed && t.condemned == s.condemned
    requires forall d, k :: d in t.box.files && k in t.box.files[d] ==> Named(t.box, t.seen, k)
    ensures WellFormed(t)
  {
    forall u | u in t.table.keyByUid ensures u <= t.counter && Named(t.box, t.seen, t.table.keyByUid[u]) {
      assert Named(s.box, s.seen, s.table.keyByUid[u]);
    }
    forall m | m in t.condemned ensures m in MailsOf(t.box, t.allowed) {
      assert m in MailsOf(s.box, s.allowed);
    }
  }

  lemma CopiesStay(s: State, t: State)
    requires CopiesMade(s) && NothingLost(s.box, t.box)
    requires t.table == s.table && t.busy == s.busy && t.doomed == s.doomed
    ensures CopiesMade(t)
  {
  }

  lemma CopiedNames(s: State, e: Event)
    requires Inv(s) && Enabled(s, e) && e.CopyStep?
    requires CopyWorks(s.box, s.table, s.busy.dest, s.busy.src, s.busy.uids[|s.busy.made|], e.outcome)
    ensures NothingLost(s.box, Apply(s, e).box) && WellFormed(Apply(s, e))
  {
    var t := Apply(s, e);
    var original := s.table.keyByUid[s.busy.uids[|s.busy.made|]];
    assert Named(s.box, s.seen, original);
    forall d, k | d in t.box.files && k in t.box.files[d] ensures Named(t.box, t.seen, k) {
      assert d in s.box.files && k in s.box.files[d] ==> Named(s.box, s.seen, k);
    }
    NamesGrow(s, t);
  }

  lemma CopiedMade(s: State, e: Event)
    requires Inv(s) && Enabled(s, e) && e.CopyStep?
    requires CopyWorks(s.box, s.table, s.busy.dest, s.busy.src, s.busy.uids[|s.busy.made|], e.outcome)
    ensures CopiesMade(Apply(s, e))
  {
    KeysKnown(s, s.busy.uids);
  }

  /** Files that nothing has released are still there. */
  lemma GrowthHolds(s: State, t: State)
    requires AllHeld(s) && NothingLost(s.box, t.box) && t.seen == s.seen
    requires t.doomed == s.doomed && t.allowed == s.allowed && t.condemned == s.condemned
    ensures AllHeld(t)
  {
    forall m | m in t.seen && m !in t.condemned ensures Held(t, m) {
      var d, k :| IsHeld(s, m, d, k);
      assert IsHeld(t, m, d, k);
    }
  }

  lemma CopiedKeeps(s: State, e: Event)
    requires Inv(s) && Enabled(s, e) && e.CopyStep?
    requires CopyWorks(s.box, s.table, s.busy.dest, s.busy.src, s.busy.uids[|s.busy.made|], e.outcome)
    ensures Inv(Apply(s, e))
  {
    var t := Apply(s, e);
    CopiedNames(s, e);
    CopiedMade(s, e);
    GrowthHolds(s, t);
    SameBacking(s, t);
  }

  lemma {:induction false} CopyStepKeeps(s: State, e: Event)
    requires Inv(s) && Enabled(s, e) && e.CopyStep?
    ensures Inv(Apply(s, e))
  {
    var b := s.busy;
    if CopyWorks(s.box, s.table, b.dest, b.src, b.uids[|b.made|], e.outcome) {
      CopiedKeeps(s, e);
    } else {
      var junk := if e.outcome.Failed? then e.outcome.junk else {};
      AddedKeeps(s, b.dest, junk, RUBBISH);
      AnswerKeeps(Added(s, b.dest, junk, RUBBISH), b.id, false);
    }
  }

  lemma CopiesFieldKeeps(s: State, copies: set<(Key, Dir, Key)>)
    requires Inv(s)
    ensures Inv(s.(copies := copies))
  {
    SameFilesHeld(s, s.(copies := copies));
    SameBacking(s, s.(copies := copies));
  }

  lemma CopyEndKeeps(s: State)
    requires Inv(s) && Enabled(s, CopyEnd)
    ensures Inv(Apply(s, CopyEnd))
  {
    if s.busy.id in s.waiting {
      ReleaseKeeps(s);
      assert AllDoomed(Release(s), s.waiting[s.busy.id]);
      AnswerKeeps(Release(s), s.busy.id, true);
      CopiesFieldKeeps(Answer(Release(s), s.busy.id, true), Apply(s, CopyEnd).copies);
    } else {
      AnswerKeeps(s, s.busy.id, true);
    }
  }

  lemma RemoveStepKeeps(s: State, e: Event)
    requires Inv(s) && Enabled(s, e) && e.RemoveStep?
    ensures Inv(Apply(s, e))
  {
    var b := s.busy;
    if RemoveWorks(s.box, s.table, b.dir, b.uids[b.n], e.ok) {
      var t := Apply(s, e);
      forall m | m in t.seen && m !in t.condemned ensures Held(t, m) {
        var d, k :| IsHeld(s, m, d, k);
        assert b.uids[b.n] in b.uids;
        assert IsHeld(t, m, d, k);
      }
      SameBacking(s, t);
      forall d, k | d in t.box.files && k in t.box.files[d] ensures Named(t.box, t.seen, k) {
        assert Named(s.box, s.seen, k);
      }
      NamesGrow(s, t);
    } else {
      AnswerKeeps(s, b.id, false);
    }
  }

  lemma UiKeeps(s: State, e: Event)
    requires Inv(s) && Enabled(s, e)
    requires e.Move? || e.Copy? || e.Delete? || e.Open? || e.Fetch? || e.Process?
    ensures Inv(Apply(s, e))
  {
    match e
    case Move(uids, dest, createDest) => PostAllKeeps(s, StorePosts.MovePosts(uids, dest, createDest));
    case Copy(uids, dest, createDest) => PostAllKeeps(s, CopyPosts(uids, dest, createDest));
    case Delete(uids) =>
      UserDeletesKeeps(s, uids);
      PostOneKeeps(UserDeletes(s, KeysOf(s.table, uids)), Post(DeleteMessages(uids), Caller));
    case Open(dir) => PostOneKeeps(s, Post(OpenDirectory(dir), Caller));
    case Fetch => PostOneKeeps(s, Post(FetchDirectoryContents, Nobody));
    case Process => ProcessKeeps(s);
  }

  lemma OtherStoresKeeps(s: State, n: nat)
    requires Inv(s)
    ensures Inv(s.(counter := s.counter + n))
  {
    SameFilesHeld(s, s.(counter := s.counter + n));
    SameBacking(s, s.(counter := s.counter + n));
  }

  lemma {:induction false} StepKeeps(s: State, e: Event)
    requires Inv(s) && Enabled(s, e) && Apply(s, e).counter < WRAP
    ensures Inv(Apply(s, e))
  {
    match e
    case Take => TakeKeeps(s);
    case Created(_) => FolderKeeps(s, e);
    case Opened(_, _, _) => FolderKeeps(s, e);
    case Fetched(_, _) => FolderKeeps(s, e);
    case CopyStep(_) => CopyStepKeeps(s, e);
    case CopyEnd => CopyEndKeeps(s);
    case RemoveStep(_) => RemoveStepKeeps(s, e);
    case RemoveEnd => AnswerKeeps(s, s.busy.id, true);
    case Notice(_, keys) => RegisterKeeps(s, keys);
    case Arrive(dir, key, mail) => ArriveKeeps(s, dir, key, mail);
    case OtherStores(n) => OtherStoresKeeps(s, n);
    case _ => UiKeeps(s, e);
  }

  lemma ArriveKeeps(s: State, dir: Dir, key: Key, mail: Mail)
    requires Inv(s) && Enabled(s, Arrive(dir, key, mail))
    ensures Inv(Added(s, dir, {key}, mail))
  {
    if key in s.table.uidByKey {
      assert Named(s.box, s.seen, s.table.keyByUid[s.table.uidByKey[key]]);
    }
    AddedKeeps(s, dir, {key}, mail);
  }

  lemma {:induction false} PostAllCounter(s: State, posts: seq<Post>)
    ensures PostAll(s, posts).counter == s.counter && PostAll(s, posts).box == s.box
    ensures PostAll(s, posts).seen == s.seen && PostAll(s, posts).doomed == s.doomed
    ensures PostAll(s, posts).allowed == s.allowed && PostAll(s, posts).condemned == s.condemned
    ensures PostAll(s, posts).copies == s.copies
    decreases |posts|
  {
    if posts != [] {
      PostAllCounter(PostOne(s, posts[0]), posts[1..]);
    }
  }

  lemma CounterGrows(s: State, e: Event)
    requires Enabled(s, e)
    ensures s.counter <= Apply(s, e).counter
    ensures s.seen <= Apply(s, e).seen && s.condemned <= Apply(s, e).condemned
  {
    match e
    case Opened(_, _, keys) => ScanGrows(s.table, s.counter, keys);
    case Fetched(_, keys) => ScanGrows(s.table, s.counter, keys);
    case Notice(_, keys) => ScanGrows(s.table, s.counter, keys);
    case Move(uids, dest, createDest) => PostAllCounter(s, StorePosts.MovePosts(uids, dest, createDest));
    case Copy(uids, dest, createDest) => PostAllCounter(s, CopyPosts(uids, dest, createDest));
    case Process => ProcessCounter(s);
    case _ =>
  }

  lemma ProcessCounter(s: State)
    requires Enabled(s, Process)
    ensures var t := Apply(s, Process);
      && t.counter == s.counter && t.box == s.box && t.seen == s.seen && t.doomed == s.doomed
      && t.allowed == s.allowed && t.condemned == s.condemned && t.copies == s.copies
  {
    var r := s.replies[0];
    var t := s.(replies := s.replies[1..]);
    if r.to in s.waiting {
      PostAllCounter(if r.done then t.(waiting := t.waiting - {r.to}) else t, ReplyPosts(s.waiting[r.to], r.done));
    }
  }

  lemma {:induction false} RunKeeps(start: State, run: seq<Event>)
    requires Start(start) && Exec(start, run).Some? && Exec(start, run).value.counter < WRAP
    ensures Inv(Exec(start, run).value)
  {
    if run == [] {
      forall m | m in start.seen ensures Held(start, m) {
        assert Present(start.box, m);
        var d, k :| d in start.box.files && k in start.box.files[d] && k in start.box.names && start.box.names[k] == m;
        assert IsHeld(start, m, d, k);
      }
    } else {
      var s, e := Exec(start, run[..|run| - 1]).value, run[|run| - 1];
      CounterGrows(s, e);
      RunKeeps(start, run[..|run| - 1]);
      StepKeeps(s, e);
    }
  }

  // What a run says about mail

  lemma {:induction false} SeenGrows(start: State, run: seq<Event>, n: nat)
    requires n <= |run| && Exec(start, run).Some?
    ensures Exec(start, run[..n]).Some?
    ensures Exec(start, run[..n]).value.seen <= Exec(start, run).value.seen
    ensures Exec(start, run[..n]).value.counter <= Exec(start, run).value.counter
  {
    if n == |run| {
      assert run[..n] == run;
    } else {
      var last := |run| - 1;
      assert run[..last][..n] == run[..n];
      SeenGrows(start, run[..last], n);
      CounterGrows(Exec(start, run[..last]).value, run[last]);
    }
  }

  /**
   Conservation.  Every mail there was at any moment of any run is in some directory at
   the end of it, unless the user deleted a file of it when no other was left but such as
   had been deleted before or been moved away: no failed, partial or interleaved move
   loses one.  (Up to the 2^32nd uid, after which uids are reused.)
   */
  lemma Conservation(start: State, run: seq<Event>, n: nat, mail: Mail)
    requires Start(start) && Exec(start, run).Some? && Exec(start, run).value.counter < WRAP
    requires n <= |run| && Exec(start, run[..n]).Some? && mail in Exec(start, run[..n]).value.seen
    requires mail !in Exec(start, run).value.condemned
    ensures Present(Exec(start, run).value.box, mail)
  {
    SeenGrows(start, run, n);
    RunKeeps(start, run);
    var t := Exec(start, run).value;
    assert Held(t, mail);
    var d, k :| IsHeld(t, mail, d, k);
  }

  /** A mail is condemned only through a file of it that the user named. */
  lemma CondemnedByUser(start: State, run: seq<Event>, mail: Mail)
    requires Start(start) && Exec(start, run).Some? && Exec(start, run).value.counter < WRAP
    requires mail in Exec(start, run).value.condemned
    ensures var t := Exec(start, run).value;
      exists k :: k in t.allowed && k in t.box.names && t.box.names[k] == mail
  {
    RunKeeps(start, run);
    var t := Exec(start, run).value;
    assert mail in MailsOf(t.box, t.allowed);
  }

  /** A copy made by a move is where the move put it, unless a later move or the user has taken it on. */
  ghost predicate CopyFollows(s: State, c: (Key, Dir, Key)) {
    && c.0 in s.box.names && c.2 in s.box.names && s.box.names[c.2] == s.box.names[c.0]
    && ((c.1 in s.box.files && c.2 in s.box.files[c.1]) || c.2 in s.doomed || c.2 in s.allowed)
  }

  ghost predicate Trail(s: State) {
    && (forall c :: c in s.copies ==> CopyFollows(s, c))
    && (forall k :: k in s.doomed ==> exists c :: c in s.copies && c.0 == k)
  }

  /** A file disappears only when its deletion was backed. */
  ghost predicate Stays(s: State, t: State, d: Dir, k: Key) {
    d in s.box.files && k in s.box.files[d] ==>
      (d in t.box.files && k in t.box.files[d]) || k in t.doomed || k in t.allowed
  }

  /** A step keeps names, verdicts and every file that may not go. */
  ghost predicate StaysAll(s: State, t: State) {
    && (forall k :: k in s.box.names ==> k in t.box.names && t.box.names[k] == s.box.names[k])
    && s.doomed <= t.doomed && s.allowed <= t.allowed && s.copies <= t.copies
    && (forall d, k :: Stays(s, t, d, k))
  }

  lemma SameBoxStays(s: State, t: State)
    requires t.box == s.box && s.doomed <= t.doomed && s.allowed <= t.allowed && s.copies <= t.copies
    ensures StaysAll(s, t)
  {
  }

  lemma PostStays(s: State, e: Event)
    requires Enabled(s, e) && (e.Move? || e.Copy? || e.Process? || e.Delete? || e.Open? || e.Fetch?)
    ensures StaysAll(s, Apply(s, e))
  {
    if e.Move? {
      PostAllCounter(s, StorePosts.MovePosts(e.uids, e.dest, e.createDest));
    } else if e.Copy? {
      PostAllCounter(s, CopyPosts(e.uids, e.dest, e.createDest));
    } else if e.Process? {
      ProcessCounter(s);
    }
    SameBoxStays(s, Apply(s, e));
  }

  lemma GrowthStays(s: State, t: State)
    requires (forall k :: k in s.box.names ==> k in t.box.names && t.box.names[k] == s.box.names[k])
    requires forall d :: d in s.box.files ==> d in t.box.files && s.box.files[d] <= t.box.files[d]
    requires t.doomed == s.doomed && t.allowed == s.allowed && t.copies == s.copies
    ensures StaysAll(s, t)
  {
  }

  lemma StepStays(s: State, e: Event)
    requires Inv(s) && Enabled(s, e)
    ensures StaysAll(s, Apply(s, e))
  {
    if e.Move? || e.Copy? || e.Process? || e.Delete? || e.Open? || e.Fetch? {
      PostStays(s, e);
    } else if e.CopyStep? || e.Arrive? || e.Created? {
      GrowthStays(s, Apply(s, e));
    } else if e.RemoveStep? {
      RemoveStepStays(s, e);
    } else {
      SameBoxStays(s, Apply(s, e));
    }
  }

  lemma RemoveStepStays(s: State, e: Event)
    requires Inv(s) && Enabled(s, e) && e.RemoveStep?
    ensures StaysAll(s, Apply(s, e))
  {
    assert s.busy.uids[s.busy.n] in s.busy.uids;
  }

  lemma TrailCopyEnd(s: State)
    requires Inv(s) && Trail(s) && Enabled(s, CopyEnd) && s.busy.id in s.waiting
    ensures Trail(Apply(s, CopyEnd))
  {
    var b, t := s.busy, Apply(s, CopyEnd);
    forall c | c in t.copies ensures CopyFollows(t, c) {
      if c in s.copies {
        assert CopyFollows(s, c);
      } else {
        var i :| 0 <= i < |b.uids| && b.uids[i] in s.table.keyByUid && c == (s.table.keyByUid[b.uids[i]], b.dest, b.made[i]);
        assert CopyIsThere(s.box, s.table, b.dest, b.uids[i], b.made[i]);
      }
    }
    forall k | k in t.doomed ensures exists c :: c in t.copies && c.0 == k {
      if k in s.doomed {
        var c :| c in s.copies && c.0 == k;
        assert c in t.copies;
      } else {
        var i :| 0 <= i < |b.uids| && b.uids[i] in s.table.keyByUid && s.table.keyByUid[b.uids[i]] == k;
        assert (k, b.dest, b.made[i]) in t.copies;
      }
    }
  }

  /** No other step makes copies or releases originals. */
  lemma SameTrail(s: State, e: Event)
    requires Enabled(s, e) && !(e.CopyEnd? && s.busy.id in s.waiting)
    ensures Apply(s, e).copies == s.copies && Apply(s, e).doomed == s.doomed
  {
    match e
    case Move(uids, dest, createDest) => PostAllCounter(s, StorePosts.MovePosts(uids, dest, createDest));
    case Copy(uids, dest, createDest) => PostAllCounter(s, CopyPosts(uids, dest, createDest));
    case Process => ProcessCounter(s);
    case _ =>
  }

  lemma TrailStep(s: State, e: Event)
    requires Inv(s) && Trail(s) && Enabled(s, e)
    ensures Trail(Apply(s, e))
  {
    if e.CopyEnd? && s.busy.id in s.waiting {
      TrailCopyEnd(s);
    } else {
      var t := Apply(s, e);
      StepStays(s, e);
      SameTrail(s, e);
      forall c | c in t.copies ensures CopyFollows(t, c) {
        assert CopyFollows(s, c);
        assert Stays(s, t, c.1, c.2);
      }
    }
  }

  lemma {:induction false} TrailKept(start: State, run: seq<Event>)
    requires Start(start) && Exec(start, run).Some? && Exec(start, run).value.counter < WRAP
    ensures Trail(Exec(start, run).value)
  {
    if run != [] {
      var s, e := Exec(start, run[..|run| - 1]).value, run[|run| - 1];
      CounterGrows(s, e);
      RunKeeps(start, run[..|run| - 1]);
      TrailKept(start, run[..|run| - 1]);
      TrailStep(s, e);
    }
  }

  lemma {:induction false} FileStays(start: State, run: seq<Event>, n: nat, d: Dir, k: Key)
    requires Start(start) && n <= |run| && Exec(start, run).Some? && Exec(start, run).value.counter < WRAP
    requires Exec(start, run[..n]).Some?
    ensures Stays(Exec(start, run[..n]).value, Exec(start, run).value, d, k)
  {
    if n == |run| {
      assert run[..n] == run;
    } else {
      var last := |run| - 1;
      var s, e := Exec(start, run[..last]).value, run[last];
      assert run[..last][..n] == run[..n];
      CounterGrows(s, e);
      RunKeeps(start, run[..last]);
      FileStays(start, run[..last], n, d, k);
      StepStays(s, e);
      assert Stays(s, Apply(s, e), d, k);
    }
  }

  /**
   Source or destination.  A file that lay in src at some moment is still there at the
   end of the run, or the user's own deletion named it, or a finished move has copied it
   and the copy is in that move's destination, unless that copy was itself moved on or
   named by the user.
   */
  lemma SourceOrDestination(start: State, run: seq<Event>, n: nat, src: Dir, key: Key)
    requires Start(start) && n <= |run| && Exec(start, run).Some? && Exec(start, run).value.counter < WRAP
    requires Exec(start, run[..n]).Some?
    requires src in Exec(start, run[..n]).value.box.files && key in Exec(start, run[..n]).value.box.files[src]
    ensures var t := Exec(start, run).value;
      || (src in t.box.files && key in t.box.files[src])
      || key in t.allowed
      || exists c :: c in t.copies && c.0 == key && CopyFollows(t, c)
  {
    FileStays(start, run, n, src, key);
    TrailKept(start, run);
  }

  // The steps of an action and the worker's own methods

  lemma ExecSnoc(start: State, run: seq<Event>, e: Event)
    requires Exec(start, run).Some? && Enabled(Exec(start, run).value, e)
    ensures Exec(start, run + [e]) == Some(Apply(Exec(start, run).value, e))
  {
    assert (run + [e])[..|run|] == run;
  }

  function CopySteps(os: seq<Outcome>): seq<Event> {
    Map(os, (o: Outcome) => CopyStep(o))
  }

  function RemoveSteps(oks: seq<bool>): seq<Event> {
    Map(oks, (ok: bool) => RemoveStep(ok))
  }

  function KeysMade(os: seq<Outcome>): seq<Key> {
    Map(os, (o: Outcome) => if o.Copied? then o.key else "")
  }

  lemma StepsSnoc(os: seq<Outcome>, oks: seq<bool>, n: nat)
    ensures n < |os| ==> CopySteps(os[..n + 1]) == CopySteps(os[..n]) + [CopyStep(os[n])]
    ensures n < |os| && os[n].Copied? ==> KeysMade(os[..n + 1]) == KeysMade(os[..n]) + [os[n].key]
    ensures n < |oks| ==> RemoveSteps(oks[..n + 1]) == RemoveSteps(oks[..n]) + [RemoveStep(oks[n])]
  {
  }

  lemma CopyStepWorks(s: State, o: Outcome)
    requires Enabled(s, CopyStep(o))
    requires CopyWorks(s.box, s.table, s.busy.dest, s.busy.src, s.busy.uids[|s.busy.made|], o)
    ensures Apply(s, CopyStep(o)) ==
      s.(box := CopyOne(s.box, s.table, s.busy.dest, s.busy.src, s.busy.uids[|s.busy.made|], o).0,
         busy := s.busy.(made := s.busy.made + [o.key]))
  {
  }

  lemma CopyEndAnswers(s: State)
    requires Enabled(s, CopyEnd)
    ensures var t := Apply(s, CopyEnd);
      && t.replies == s.replies + [Reply(s.busy.id, true)] && t.busy == Idle && t.box == s.box
      && t.waiting == s.waiting && t.actions == s.actions && t.lastId == s.lastId
      && t.selected == s.selected && t.table == s.table
  {
  }

  lemma RemoveStepWorks(s: State, ok: bool)
    requires Enabled(s, RemoveStep(ok)) && RemoveWorks(s.box, s.table, s.busy.dir, s.busy.uids[s.busy.n], ok)
    ensures Apply(s, RemoveStep(ok)) ==
      s.(box := RemoveOne(s.box, s.table, s.busy.dir, s.busy.uids[s.busy.n]), busy := s.busy.(n := s.busy.n + 1))
  {
  }

  /** Where n successful copies have brought the worker. */
  ghost function CopyState(s: State, uids: seq<Uid>, os: seq<Outcome>, n: nat): State
    requires Enabled(s, Take) && s.actions[0].request.CopyMessages? && n <= |uids| == |os|
  {
    var t := Apply(s, Take);
    t.(box := CopyRun(s.box, s.table, s.actions[0].request.dest, s.selected, uids[..n], os[..n]).0,
       busy := t.busy.(made := KeysMade(os[..n])))
  }

  lemma CopyStateStep(s: State, uids: seq<Uid>, os: seq<Outcome>, n: nat)
    requires Enabled(s, Take) && s.actions[0].request.CopyMessages? && s.actions[0].request.uids == uids
    requires n < |uids| == |os| && Fresh(s.box, s.table, os)
    requires CopyRun(s.box, s.table, s.actions[0].request.dest, s.selected, uids[..n], os[..n]).1
    requires CopyRun(s.box, s.table, s.actions[0].request.dest, s.selected, uids[..n + 1], os[..n + 1]).1
    ensures Enabled(CopyState(s, uids, os, n), CopyStep(os[n]))
    ensures Apply(CopyState(s, uids, os, n), CopyStep(os[n])) == CopyState(s, uids, os, n + 1)
  {
    var dest := s.actions[0].request.dest;
    CopyRunNext(s.box, s.table, dest, s.selected, uids, os, n);
    StillNew(s.box, s.table, dest, s.selected, uids, os, n);
    StepsSnoc(os, [], n);
    CopyStepWorks(CopyState(s, uids, os, n), os[n]);
  }

  lemma CopyPrefix(s: State, uids: seq<Uid>, os: seq<Outcome>, n: nat)
    requires Enabled(s, Take) && s.actions[0].request.CopyMessages? && 0 < n <= |uids| == |os|
    requires CopyRun(s.box, s.table, s.actions[0].request.dest, s.selected, uids[..n], os[..n]).1
    ensures CopyRun(s.box, s.table, s.actions[0].request.dest, s.selected, uids[..n - 1], os[..n - 1]).1
  {
    assert uids[..n][..n - 1] == uids[..n - 1] && os[..n][..n - 1] == os[..n - 1];
  }

  /** Successful copies one after the other, from where the worker takes the action. */
  lemma {:induction false} CopiesSoFar(s: State, uids: seq<Uid>, os: seq<Outcome>, n: nat)
    requires Enabled(s, Take) && s.actions[0].request.CopyMessages? && s.actions[0].request.uids == uids
    requires n <= |uids| == |os| && Fresh(s.box, s.table, os)
    requires CopyRun(s.box, s.table, s.actions[0].request.dest, s.selected, uids[..n], os[..n]).1
    ensures Exec(s, [Take] + CopySteps(os[..n])) == Some(CopyState(s, uids, os, n))
  {
    if n == 0 {
      assert [Take] + CopySteps(os[..0]) == [] + [Take];
      ExecSnoc(s, [], Take);
      assert KeysMade(os[..0]) == [];
    } else {
      CopyPrefix(s, uids, os, n);
      CopiesSoFar(s, uids, os, n - 1);
      CopyStateStep(s, uids, os, n - 1);
      StepsSnoc(os, [], n - 1);
      Assoc([Take], CopySteps(os[..n - 1]), [CopyStep(os[n - 1])]);
      ExecSnoc(s, [Take] + CopySteps(os[..n - 1]), CopyStep(os[n - 1]));
    }
  }

  lemma {:induction false} FirstFailure(b: Box, t: Table, dest: Dir, src: Dir, uids: seq<Uid>, os: seq<Outcome>) returns (n: nat)
    requires |uids| == |os| && !CopyRun(b, t, dest, src, uids, os).1
    ensures n < |uids|
    ensures CopyRun(b, t, dest, src, uids[..n], os[..n]).1 && !CopyRun(b, t, dest, src, uids[..n + 1], os[..n + 1]).1
  {
    n := |uids| - 1;
    if CopyRun(b, t, dest, src, uids[..n], os[..n]).1 {
      assert uids[..n + 1] == uids && os[..n + 1] == os;
    } else {
      var m := n;
      n := FirstFailure(b, t, dest, src, uids[..m], os[..m]);
      assert uids[..m][..n] == uids[..n] && os[..m][..n] == os[..n];
      assert uids[..m][..n + 1] == uids[..n + 1] && os[..m][..n + 1] == os[..n + 1];
    }
  }

  /** A copy that fails changes the files as the container's method does. */
  lemma FailedStep(s: State, o: Outcome)
    requires Enabled(s, CopyStep(o))
    requires !CopyWorks(s.box, s.table, s.busy.dest, s.busy.src, s.busy.uids[|s.busy.made|], o)
    ensures var t := Apply(s, CopyStep(o));
      && t.box == CopyOne(s.box, s.table, s.busy.dest, s.busy.src, s.busy.uids[|s.busy.made|], o).0
      && t.busy == Idle && t.replies == s.replies + [Reply(s.busy.id, false)]
  {
    if o.Copied? && s.busy.dest in s.box.files {
      var b := AddFiles(s.box, s.busy.dest, {}, RUBBISH);
      assert s.box.files[s.busy.dest] + {} == s.box.files[s.busy.dest];
      assert b.files == s.box.files;
      assert b.names == s.box.names;
    }
  }

  lemma {:induction false} CopyFails(s: State, uids: seq<Uid>, os: seq<Outcome>, n: nat)
    requires Enabled(s, Take) && s.actions[0].request.CopyMessages? && s.actions[0].request.uids == uids
    requires n < |uids| == |os| && Fresh(s.box, s.table, os)
    requires CopyRun(s.box, s.table, s.actions[0].request.dest, s.selected, uids[..n], os[..n]).1
    requires !CopyRun(s.box, s.table, s.actions[0].request.dest, s.selected, uids[..n + 1], os[..n + 1]).1
    ensures var run := [Take] + CopySteps(os[..n + 1]);
      && Exec(s, run).Some?
      && Exec(s, run).value.box == CopyRun(s.box, s.table, s.actions[0].request.dest, s.selected, uids[..n + 1], os[..n + 1]).0
      && Exec(s, run).value.busy == Idle
      && Exec(s, run).value.replies == s.replies + [Reply(s.actions[0].id, false)]
  {
    var dest := s.actions[0].request.dest;
    CopiesSoFar(s, uids, os, n);
    CopyRunNext(s.box, s.table, dest, s.selected, uids, os, n);
    StillNew(s.box, s.table, dest, s.selected, uids, os, n);
    StepsSnoc(os, [], n);
    Assoc([Take], CopySteps(os[..n]), [CopyStep(os[n])]);
    var t := Exec(s, [Take] + CopySteps(os[..n])).value;
    FailedStep(t, os[n]);
    ExecSnoc(s, [Take] + CopySteps(os[..n]), CopyStep(os[n]));
  }

  lemma {:induction false} CopySucceeds(s: State, uids: seq<Uid>, os: seq<Outcome>)
    requires Enabled(s, Take) && s.actions[0].request.CopyMessages? && s.actions[0].request.uids == uids
    requires |uids| == |os| && Fresh(s.box, s.table, os)
    requires CopyRun(s.box, s.table, s.actions[0].request.dest, s.selected, uids, os).1
    ensures var run := [Take] + CopySteps(os) + [CopyEnd];
      && Exec(s, run).Some?
      && Exec(s, run).value.box == CopyRun(s.box, s.table, s.actions[0].request.dest, s.selected, uids, os).0
      && Exec(s, run).value.busy == Idle
      && Exec(s, run).value.replies == s.replies + [Reply(s.actions[0].id, true)]
  {
    assert uids[..|uids|] == uids && os[..|os|] == os;
    CopiesSoFar(s, uids, os, |os|);
    ExecSnoc(s, [Take] + CopySteps(os), CopyEnd);
  }

  /**
   The steps of a copy action, taken together, are the container's CopyAll: whatever the
   single copies come to, the worker's steps leave the same files and answer with its result.
   */
  lemma {:induction false} CopyActionIsCopyAll(s: State, uids: seq<Uid>, os: seq<Outcome>) returns (n: nat, run: seq<Event>)
    requires Enabled(s, Take) && s.actions[0].request.CopyMessages? && s.actions[0].request.uids == uids
    requires |uids| == |os| && Fresh(s.box, s.table, os)
    ensures n <= |os|
    ensures var (b, ok) := CopyRun(s.box, s.table, s.actions[0].request.dest, s.selected, uids, os);
      && run == [Take] + CopySteps(os[..n]) + (if ok then [CopyEnd] else [])
      && Exec(s, run).Some?
      && Exec(s, run).value.box == b && Exec(s, run).value.busy == Idle
      && Exec(s, run).value.replies == s.replies + [Reply(s.actions[0].id, ok)]
  {
    var dest := s.actions[0].request.dest;
    if CopyRun(s.box, s.table, dest, s.selected, uids, os).1 {
      n := |os|;
      assert os[..n] == os;
      CopySucceeds(s, uids, os);
      run := [Take] + CopySteps(os[..n]) + [CopyEnd];
    } else {
      var k := FirstFailure(s.box, s.table, dest, s.selected, uids, os);
      n := k + 1;
      CopyFails(s, uids, os, k);
      CopyRunSticks(s.box, s.table, dest, s.selected, uids, os, n);
      run := [Take] + CopySteps(os[..n]) + [];
      assert run == [Take] + CopySteps(os[..n]);
    }
  }

  /** Where n successful removals have brought the worker. */
  ghost function RemoveState(s: State, uids: seq<Uid>, oks: seq<bool>, n: nat): State
    requires Enabled(s, Take) && s.actions[0].request.DeleteMessages? && n <= |uids| == |oks|
  {
    var t := Apply(s, Take);
    t.(box := RemoveRun(s.box, s.table, s.selected, uids[..n], oks[..n]).0, busy := t.busy.(n := n))
  }

  lemma RemoveStateStep(s: State, uids: seq<Uid>, oks: seq<bool>, n: nat)
    requires Enabled(s, Take) && s.actions[0].request.DeleteMessages? && s.actions[0].request.uids == uids
    requires n < |uids| == |oks| && RemoveRun(s.box, s.table, s.selected, uids[..n], oks[..n]).1 == n
    requires RemoveRun(s.box, s.table, s.selected, uids[..n + 1], oks[..n + 1]).1 == n + 1
    ensures Enabled(RemoveState(s, uids, oks, n), RemoveStep(oks[n]))
    ensures Apply(RemoveState(s, uids, oks, n), RemoveStep(oks[n])) == RemoveState(s, uids, oks, n + 1)
  {
    RemoveRunNext(s.box, s.table, s.selected, uids, oks, n);
    RemoveStepWorks(RemoveState(s, uids, oks, n), oks[n]);
  }

  lemma RemovePrefix(s: State, uids: seq<Uid>, oks: seq<bool>, n: nat)
    requires 0 < n <= |uids| == |oks| && RemoveRun(s.box, s.table, s.selected, uids[..n], oks[..n]).1 == n
    ensures RemoveRun(s.box, s.table, s.selected, uids[..n - 1], oks[..n - 1]).1 == n - 1
  {
    assert uids[..n][..n - 1] == uids[..n - 1] && oks[..n][..n - 1] == oks[..n - 1];
  }

  lemma {:induction false} RemovalsSoFar(s: State, uids: seq<Uid>, oks: seq<bool>, n: nat)
    requires Enabled(s, Take) && s.actions[0].request.DeleteMessages? && s.actions[0].request.uids == uids
    requires n <= |uids| == |oks|
    requires RemoveRun(s.box, s.table, s.selected, uids[..n], oks[..n]).1 == n
    ensures Exec(s, [Take] + RemoveSteps(oks[..n])) == Some(RemoveState(s, uids, oks, n))
  {
    if n == 0 {
      assert [Take] + RemoveSteps(oks[..0]) == [] + [Take];
      ExecSnoc(s, [], Take);
    } else {
      RemovePrefix(s, uids, oks, n);
      RemovalsSoFar(s, uids, oks, n - 1);
      RemoveStateStep(s, uids, oks, n - 1);
      StepsSnoc([], oks, n - 1);
      Assoc([Take], RemoveSteps(oks[..n - 1]), [RemoveStep(oks[n - 1])]);
      ExecSnoc(s, [Take] + RemoveSteps(oks[..n - 1]), RemoveStep(oks[n - 1]));
    }
  }

  /** How far a run of removals comes is how far its prefixes come. */
  lemma {:induction false} RemovedPrefix(b: Box, t: Table, dir: Dir, uids: seq<Uid>, oks: seq<bool>)
    requires |uids| == |oks|
    ensures var n := RemoveRun(b, t, dir, uids, oks).1;
      && RemoveRun(b, t, dir, uids[..n], oks[..n]).1 == n
      && (n < |uids| ==> RemoveRun(b, t, dir, uids[..n + 1], oks[..n + 1]).1 == n)
  {
    var n, m := RemoveRun(b, t, dir, uids, oks).1, |uids| - 1;
    if n == |uids| {
      assert uids[..n] == uids && oks[..n] == oks;
    } else if RemoveRun(b, t, dir, uids[..m], oks[..m]).1 == m {
      assert n == m && uids[..n + 1] == uids && oks[..n + 1] == oks;
    } else {
      RemovedPrefix(b, t, dir, uids[..m], oks[..m]);
      assert uids[..m][..n] == uids[..n] && oks[..m][..n] == oks[..n];
      assert uids[..m][..n + 1] == uids[..n + 1] && oks[..m][..n + 1] == oks[..n + 1];
    }
  }

  /** The step after the last removal that works. */
  lemma {:induction false} RemovalFails(s: State, uids: seq<Uid>, oks: seq<bool>, n: nat)
    requires Enabled(s, Take) && s.actions[0].request.DeleteMessages? && s.actions[0].request.uids == uids
    requires n < |uids| == |oks| && RemoveRun(s.box, s.table, s.selected, uids[..n], oks[..n]).1 == n
    requires RemoveRun(s.box, s.table, s.selected, uids[..n + 1], oks[..n + 1]).1 == n
    ensures var run := [Take] + RemoveSteps(oks[..n + 1]);
      && Exec(s, run).Some?
      && Exec(s, run).value.box == RemoveRun(s.box, s.table, s.selected, uids[..n], oks[..n]).0
      && Exec(s, run).value.busy == Idle
      && Exec(s, run).value.replies == s.replies + [Reply(s.actions[0].id, false)]
  {
    RemovalsSoFar(s, uids, oks, n);
    RemoveRunNext(s.box, s.table, s.selected, uids, oks, n);
    StepsSnoc([], oks, n);
    Assoc([Take], RemoveSteps(oks[..n]), [RemoveStep(oks[n])]);
    ExecSnoc(s, [Take] + RemoveSteps(oks[..n]), RemoveStep(oks[n]));
  }

  /** Likewise the steps of a deletion, taken together, are the container's DeleteAll. */
  lemma {:induction false} DeleteActionIsDeleteAll(s: State, uids: seq<Uid>, oks: seq<bool>) returns (n: nat, run: seq<Event>)
    requires Enabled(s, Take) && s.actions[0].request.DeleteMessages? && s.actions[0].request.uids == uids
    requires |uids| == |oks|
    ensures n <= |oks|
    ensures var (b, removed) := RemoveRun(s.box, s.table, s.selected, uids, oks);
      && run == [Take] + RemoveSteps(oks[..n]) + (if removed == |uids| then [RemoveEnd] else [])
      && Exec(s, run).Some?
      && Exec(s, run).value.box == b && Exec(s, run).value.busy == Idle
      && Exec(s, run).value.replies == s.replies + [Reply(s.actions[0].id, removed == |uids|)]
  {
    var removed := RemoveRun(s.box, s.table, s.selected, uids, oks).1;
    RemovedPrefix(s.box, s.table, s.selected, uids, oks);
    if removed == |uids| {
      n := |oks|;
      assert uids[..n] == uids && oks[..n] == oks;
      RemovalsSoFar(s, uids, oks, n);
      ExecSnoc(s, [Take] + RemoveSteps(oks[..n]), RemoveEnd);
      run := [Take] + RemoveSteps(oks[..n]) + [RemoveEnd];
    } else {
      n := removed + 1;
      RemovalFails(s, uids, oks, removed);
      RemoveRunSticks(s.box, s.table, s.selected, uids, oks, n);
      RemoveRunNext(s.box, s.table, s.selected, uids, oks, removed);
      run := [Take] + RemoveSteps(oks[..n]) + [];
      assert run == [Take] + RemoveSteps(oks[..n]);
    }
  }
}
