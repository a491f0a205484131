/**
 What a message store knows about its folder, and how the worker's messages change it
 (MessageStore.Update in lib/msgstore.go).
 */
module StoreContents {
  import opened Collections

  type Uid = nat

  /** Pointers that may be nil are options; zero values of the others are written as in the source. */
  datatype Info = Info(
    uid: Uid, bodyStructure: Option<int>, envelope: Option<int>, flags: set<int>, labels: seq<string>,
    size: nat, internalDate: int)

  const ZERO_TIME: int := 0

  /** The flags that tell new mail. */
  const SEEN: int := 0
  const RECENT: int := 1

  /** Recent and unseen. */
  predicate IsNewMail(info: Info) {
    SEEN !in info.flags && RECENT in info.flags
  }

  /** The list of uids, what is loaded, what is being deleted, and the search results. */
  datatype Contents = Contents(
    uids: seq<Uid>, messages: map<Uid, Option<Info>>, deleted: set<Uid>, results: seq<Uid>)

  datatype Message =
    | DirectoryInfo(dirInfo: int)
    | DirectoryContents(uids: seq<Uid>)
    | MessageInfo(info: Info)
    | FullMessage(uid: Uid)
    | MessagesDeleted(deletedUids: seq<Uid>)

  /** Later information wins, except that nothing known is forgotten. */
  function Merge(to: Info, from: Info): Info {
    to.(bodyStructure := if from.bodyStructure.Some? then from.bodyStructure else to.bodyStructure,
        envelope := if from.envelope.Some? then from.envelope else to.envelope,
        flags := from.flags,
        labels := from.labels,
        size := if from.size != 0 then from.size else to.size,
        internalDate := if from.internalDate != ZERO_TIME then from.internalDate else to.internalDate)
  }

  function NotIn(gone: set<Uid>): Uid -> bool {
    (u: Uid) => u !in gone
  }

  function Kept(uids: seq<Uid>, gone: set<Uid>): seq<Uid> {
    Filter(uids, NotIn(gone))
  }

  /** Copying what is kept into a slice made beforehand: cut off, or padded with zeros. */
  function Presized(kept: seq<Uid>, size: nat): seq<Uid> {
    if |kept| >= size then kept[..size] else kept + Zeros(size - |kept|)
  }

  function Known(messages: map<Uid, Option<Info>>, u: Uid): Option<Info> {
    if u in messages then messages[u] else None
  }

  function Update(c: Contents, msg: Message): Contents {
    match msg
    case DirectoryInfo(_) => c
    case DirectoryContents(uids) =>
      c.(uids := uids, messages := map u | u in uids :: Known(c.messages, u))
    case MessageInfo(info) =>
      var existing := Known(c.messages, info.uid);
      c.(messages := c.messages[info.uid := Some(if existing.Some? then Merge(existing.value, info) else info)])
    case FullMessage(_) => c
    case MessagesDeleted(gone) =>
      if |c.uids| < |gone| then c
      else
        Contents(
          Presized(Kept(c.uids, ToSet(gone)), |c.uids| - |gone|),
          c.messages - ToSet(gone), c.deleted - ToSet(gone), Kept(c.results, ToSet(gone)))
  }

  // The uid list

  /** Of distinct uids, as many go as there are of the deleted ones among them. */
  lemma KeptLength(uids: seq<Uid>, gone: set<Uid>)
    requires Distinct(uids)
    ensures |Kept(uids, gone)| == |uids| - |gone * ToSet(uids)|
  {
    var p := NotIn(gone);
    var kept := Kept(uids, gone);
    FilterDistinct(uids, p);
    SetSize(kept);
    SetSize(uids);
    forall u ensures u in ToSet(kept) <==> u in ToSet(uids) - gone {
      FilterMember(uids, p, u);
    }
    assert ToSet(kept) == ToSet(uids) - gone;
    assert ToSet(uids) - (gone * ToSet(uids)) == ToSet(uids) - gone;
  }

  /**
   The pre-sized copy.  It never leaves a slot unfilled: the result is the kept uids cut
   to size; and it is all of them exactly when the deleted list has no duplicates and
   names only listed uids.  (One foreign uid, such as the zero of an unfetched IMAP
   message, costs the list its last entry.)
   */
  lemma PresizedCopy(uids: seq<Uid>, gone: seq<Uid>)
    requires Distinct(uids) && |gone| <= |uids|
    ensures var kept := Kept(uids, ToSet(gone));
      && |uids| - |gone| <= |kept|
      && Presized(kept, |uids| - |gone|) == kept[..|uids| - |gone|]
      && (Presized(kept, |uids| - |gone|) == kept <==>
            Distinct(gone) && forall u :: u in gone ==> u in uids)
  {
    KeptLength(uids, ToSet(gone));
    SetSize(gone);
    var both := ToSet(gone) * ToSet(uids);
    Subset(both, ToSet(gone));
    assert both == ToSet(gone) <==> forall u :: u in gone ==> u in uids by {
      assert forall u :: u in both <==> u in gone && u in uids;
    }
  }

  lemma Subset(a: set<Uid>, b: set<Uid>)
    requires a <= b
    ensures |a| <= |b| && (|a| == |b| <==> a == b)
  {
    assert b == a + (b - a);
    assert |b| == |a| + |b - a|;
  }

  // Runs of Update

  /** The list has no duplicates, every listed uid has an entry, and entries are about their own uid. */
  ghost predicate WellFormed(c: Contents) {
    && Distinct(c.uids)
    && (forall u :: u in c.uids ==> u in c.messages)
    && (forall u :: u in c.messages && c.messages[u].Some? ==> c.messages[u].value.uid == u)
  }

  const EMPTY := Contents([], map[], {}, [])

  function UpdateAll(c: Contents, msgs: seq<Message>): Contents {
    if msgs == [] then c else Update(UpdateAll(c, msgs[..|msgs| - 1]), msgs[|msgs| - 1])
  }

  lemma UpdateKeeps(c: Contents, msg: Message)
    requires WellFormed(c) && (msg.DirectoryContents? ==> Distinct(msg.uids))
    ensures WellFormed(Update(c, msg))
    ensures msg.MessagesDeleted? && |msg.deletedUids| <= |c.uids| ==>
      |c.uids| - |msg.deletedUids| <= |Kept(c.uids, ToSet(msg.deletedUids))| &&
      Update(c, msg).uids == Kept(c.uids, ToSet(msg.deletedUids))[..|c.uids| - |msg.deletedUids|]
  {
    if msg.MessagesDeleted? && |msg.deletedUids| <= |c.uids| {
      var gone := msg.deletedUids;
      var kept := Kept(c.uids, ToSet(gone));
      PresizedCopy(c.uids, gone);
      FilterDistinct(c.uids, NotIn(ToSet(gone)));
      assert Update(c, msg).uids == kept[..|c.uids| - |gone|];
      forall u | u in Update(c, msg).uids ensures u in c.messages - ToSet(gone) {
        assert u in kept;
        FilterMember(c.uids, NotIn(ToSet(gone)), u);
      }
    }
  }

  /** Over every run of Update with duplicate-free directory listings the store stays well formed. */
  lemma {:induction false} RunKeeps(msgs: seq<Message>)
    requires forall i :: 0 <= i < |msgs| && msgs[i].DirectoryContents? ==> Distinct(msgs[i].uids)
    ensures WellFormed(UpdateAll(EMPTY, msgs))
  {
    if msgs != [] {
      RunKeeps(msgs[..|msgs| - 1]);
      UpdateKeeps(UpdateAll(EMPTY, msgs[..|msgs| - 1]), msgs[|msgs| - 1]);
    }
  }

  /** The message neither lists the folder without u nor reports u deleted. */
  ghost predicate Stays(msg: Message, u: Uid) {
    (msg.DirectoryContents? ==> u in msg.uids) && (msg.MessagesDeleted? ==> u !in msg.deletedUids)
  }

  /**
   What is loaded stays loaded as long as it stays listed: no message of the worker makes
   the store forget an envelope or a body structure of a message that is still there.
   */
  lemma {:induction false} NothingForgotten(c: Contents, msgs: seq<Message>, u: Uid)
    requires u in c.messages && c.messages[u].Some?
    requires forall i :: 0 <= i < |msgs| ==> Stays(msgs[i], u)
    ensures var m := UpdateAll(c, msgs).messages;
      && u in m && m[u].Some?
      && (c.messages[u].value.envelope.Some? ==> m[u].value.envelope.Some?)
      && (c.messages[u].value.bodyStructure.Some? ==> m[u].value.bodyStructure.Some?)
      && (c.messages[u].value.size > 0 ==> m[u].value.size > 0)
  {
    if msgs != [] {
      NothingForgotten(c, msgs[..|msgs| - 1], u);
    }
  }

  predicate About(msg: Message, u: Uid) {
    msg.MessageInfo? && msg.info.uid == u
  }

  /** Message i is the last one about u that says something. */
  ghost predicate LastSaying(msgs: seq<Message>, u: Uid, says: Info -> bool, i: nat) {
    && i < |msgs| && About(msgs[i], u) && says(msgs[i].info)
    && forall j :: i < j < |msgs| && About(msgs[j], u) ==> !says(msgs[j].info)
  }

  /** now is the value given by the last message about u that gives one, and the old value if none does. */
  ghost predicate FollowsLatest<V(!new)>(
    msgs: seq<Message>, u: Uid, says: Info -> bool, get: Info -> V, was: V, now: V)
  {
    && (forall i: nat :: LastSaying(msgs, u, says, i) ==> now == get(msgs[i].info))
    && ((forall i :: 0 <= i < |msgs| && About(msgs[i], u) ==> !says(msgs[i].info)) ==> now == was)
  }

  lemma FollowsSnoc<V(!new)>(msgs: seq<Message>, msg: Message, u: Uid, says: Info -> bool, get: Info -> V, was: V, mid: V, now: V)
    requires FollowsLatest(msgs, u, says, get, was, mid)
    requires now == if About(msg, u) && says(msg.info) then get(msg.info) else mid
    ensures FollowsLatest(msgs + [msg], u, says, get, was, now)
  {
    var all := msgs + [msg];
    assert all[|msgs|] == msg;
    assert forall i :: 0 <= i < |msgs| ==> all[i] == msgs[i];
    forall i: nat | LastSaying(all, u, says, i) ensures now == get(all[i].info) {
      if i < |msgs| {
        assert LastSaying(msgs, u, says, i);
      }
    }
  }

  /** Nothing is known of the message. */
  function Blank(u: Uid): Info {
    Info(u, None, None, {}, [], 0, ZERO_TIME)
  }

  predicate Anything(x: Info) { true }
  predicate HasEnvelope(x: Info) { x.envelope.Some? }
  predicate HasStructure(x: Info) { x.bodyStructure.Some? }
  predicate HasSize(x: Info) { x.size != 0 }
  predicate HasDate(x: Info) { x.internalDate != ZERO_TIME }

  function FlagsOf(x: Info): set<int> { x.flags }
  function LabelsOf(x: Info): seq<string> { x.labels }
  function EnvelopeOf(x: Info): Option<int> { x.envelope }
  function StructureOf(x: Info): Option<int> { x.bodyStructure }
  function SizeOf(x: Info): nat { x.size }
  function DateOf(x: Info): int { x.internalDate }

  /** Each field of now comes from the last message about u that had a value for it. */
  ghost predicate IsLatest(msgs: seq<Message>, u: Uid, before: Info, now: Info) {
    && FollowsLatest(msgs, u, Anything, FlagsOf, before.flags, now.flags)
    && FollowsLatest(msgs, u, Anything, LabelsOf, before.labels, now.labels)
    && FollowsLatest(msgs, u, HasEnvelope, EnvelopeOf, before.envelope, now.envelope)
    && FollowsLatest(msgs, u, HasStructure, StructureOf, before.bodyStructure, now.bodyStructure)
    && FollowsLatest(msgs, u, HasSize, SizeOf, before.size, now.size)
    && FollowsLatest(msgs, u, HasDate, DateOf, before.internalDate, now.internalDate)
  }

  /**
   Later information wins.  However the messages of the worker come, a message that stays
   listed has the flags and labels it was last reported with, and each other field as last
   reported by a message that had a value for it.  A message nothing is said about is as it was.
   */
  lemma {:induction false} LatestWins(c: Contents, msgs: seq<Message>, u: Uid)
    requires forall i :: 0 <= i < |msgs| ==> Stays(msgs[i], u)
    ensures var m := UpdateAll(c, msgs).messages;
      && ((forall i :: 0 <= i < |msgs| ==> !About(msgs[i], u)) ==> Known(m, u) == Known(c.messages, u))
      && (Known(m, u).Some? <==>
            Known(c.messages, u).Some? || exists i :: 0 <= i < |msgs| && About(msgs[i], u))
      && (Known(m, u).Some? ==>
            IsLatest(
              msgs, u, if Known(c.messages, u).Some? then c.messages[u].value else Blank(u), Known(m, u).value))
  {
    if msgs == [] {
      NothingSaid(msgs, u, Before(c, u));
    } else {
      var front, msg := msgs[..|msgs| - 1], msgs[|msgs| - 1];
      var mid := UpdateAll(c, front);
      LatestWins(c, front, u);
      assert msgs == front + [msg];
      OneUpdate(mid, msg, u);
      assert Known(UpdateAll(c, msgs).messages, u).Some? ==> IsLatest(msgs, u, Before(c, u), Known(UpdateAll(c, msgs).messages, u).value) by {
        if Known(Update(mid, msg).messages, u).Some? {
          if Known(mid.messages, u).None? {
            NothingSaid(front, u, Before(c, u));
          }
          LatestSnoc(front, msg, u, Before(c, u), Before(mid, u), Known(Update(mid, msg).messages, u).value);
        }
      }
    }
  }

  function Before(c: Contents, u: Uid): Info {
    if Known(c.messages, u).Some? then Known(c.messages, u).value else Blank(u)
  }

  /** What one message does to one entry that stays. */
  ghost predicate Taken(msg: Message, u: Uid, mid: Info, now: Info) {
    if About(msg, u) then
      && now.flags == msg.info.flags && now.labels == msg.info.labels
      && now.envelope == (if msg.info.envelope.Some? then msg.info.envelope else mid.envelope)
      && now.bodyStructure == (if msg.info.bodyStructure.Some? then msg.info.bodyStructure else mid.bodyStructure)
      && now.size == (if msg.info.size != 0 then msg.info.size else mid.size)
      && now.internalDate == (if msg.info.internalDate != ZERO_TIME then msg.info.internalDate else mid.internalDate)
    else now == mid
  }

  lemma OneUpdate(c: Contents, msg: Message, u: Uid)
    requires Stays(msg, u)
    ensures var m := Update(c, msg).messages;
      && (!About(msg, u) ==> Known(m, u) == Known(c.messages, u))
      && (Known(m, u).Some? <==> Known(c.messages, u).Some? || About(msg, u))
      && (Known(m, u).Some? ==>
            Taken(msg, u, Before(c, u), Known(m, u).value))
  {
  }

  lemma NothingSaid(msgs: seq<Message>, u: Uid, before: Info)
    requires forall i :: 0 <= i < |msgs| ==> !About(msgs[i], u)
    ensures IsLatest(msgs, u, before, before)
  {
    Unsaid(msgs, u, Anything, FlagsOf, before.flags);
    Unsaid(msgs, u, Anything, LabelsOf, before.labels);
    Unsaid(msgs, u, HasEnvelope, EnvelopeOf, before.envelope);
    Unsaid(msgs, u, HasStructure, StructureOf, before.bodyStructure);
    Unsaid(msgs, u, HasSize, SizeOf, before.size);
    Unsaid(msgs, u, HasDate, DateOf, before.internalDate);
  }

  lemma Unsaid<V(!new)>(msgs: seq<Message>, u: Uid, says: Info -> bool, get: Info -> V, was: V)
    requires forall i :: 0 <= i < |msgs| ==> !About(msgs[i], u)
    ensures FollowsLatest(msgs, u, says, get, was, was)
  {
  }

  lemma LatestSnoc(msgs: seq<Message>, msg: Message, u: Uid, before: Info, mid: Info, now: Info)
    requires IsLatest(msgs, u, before, mid) && Taken(msg, u, mid, now)
    ensures IsLatest(msgs + [msg], u, before, now)
  {
    FollowsSnoc(msgs, msg, u, Anything, FlagsOf, before.flags, mid.flags, now.flags);
    FollowsSnoc(msgs, msg, u, Anything, LabelsOf, before.labels, mid.labels, now.labels);
    FollowsSnoc(msgs, msg, u, HasEnvelope, EnvelopeOf, before.envelope, mid.envelope, now.envelope);
    FollowsSnoc(msgs, msg, u, HasStructure, StructureOf, before.bodyStructure, mid.bodyStructure, now.bodyStructure);
    FollowsSnoc(msgs, msg, u, HasSize, SizeOf, before.size, mid.size, now.size);
    FollowsSnoc(msgs, msg, u, HasDate, DateOf, before.internalDate, mid.internalDate, now.internalDate);
  }

  /**
   A deletion takes exactly the reported messages out of the entries, out of those being
   deleted and out of the search results, which keep their order; a listing forgets
   whatever it does not list.
   */
  lemma Forgets(c: Contents, msg: Message, u: Uid)
    ensures msg.DirectoryContents? && u !in msg.uids ==> u !in Update(c, msg).messages
    ensures msg.MessagesDeleted? && |msg.deletedUids| <= |c.uids| ==>
      var t := Update(c, msg);
      && (u in t.messages <==> u in c.messages && u !in msg.deletedUids)
      && (u in t.deleted <==> u in c.deleted && u !in msg.deletedUids)
      && (u in t.results <==> u in c.results && u !in msg.deletedUids)
  {
    if msg.MessagesDeleted? {
      FilterMember(c.results, NotIn(ToSet(msg.deletedUids)), u);
    }
  }

  lemma ResultsKeepOrder(c: Contents, gone: seq<Uid>, i: nat, j: nat)
    requires |gone| <= |c.uids| && i < j < |c.results| && c.results[i] !in gone && c.results[j] !in gone
    ensures var results := Update(c, MessagesDeleted(gone)).results;
      exists i', j' :: 0 <= i' < j' < |results| && results[i'] == c.results[i] && results[j'] == c.results[j]
  {
    var i', j' := FilterKeepsOrder(c.results, NotIn(ToSet(gone)), i, j);
  }

  /** The order of the list after deletions is the old order. */
  lemma DeletionKeepsOrder(c: Contents, gone: seq<Uid>, u: Uid, v: Uid, i: nat, j: nat)
    requires WellFormed(c) && |gone| <= |c.uids| && Distinct(gone) && forall w :: w in gone ==> w in c.uids
    requires i < j < |c.uids| && c.uids[i] == u && c.uids[j] == v && u !in gone && v !in gone
    ensures var uids := Update(c, MessagesDeleted(gone)).uids;
      |uids| == |c.uids| - |gone| && exists i', j' :: 0 <= i' < j' < |uids| && uids[i'] == u && uids[j'] == v
  {
    PresizedCopy(c.uids, gone);
    KeptLength(c.uids, ToSet(gone));
    var i', j' := FilterKeepsOrder(c.uids, NotIn(ToSet(gone)), i, j);
  }

  /** An instance: deleting a message that is not listed costs the list its last one. */
  lemma ForeignUidCostsOne()
    ensures Update(Contents([1, 2], map[1 := None, 2 := None], {}, []), MessagesDeleted([9])).uids == [1]
  {
    var uids: seq<Uid> := [1, 2];
    FilterLength(uids, NotIn(ToSet([9])));
    assert Kept(uids, ToSet([9])) == [1, 2];
  }
}
