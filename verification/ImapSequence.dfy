/**
 The IMAP worker's map from message sequence numbers to uids, and how it follows the
 server's mailbox under EXPUNGE (worker/imap/flags.go, worker.go, fetch.go, open.go;
 sections 2.3.1.2 and 7.4.1 of RFC 3501).
 */
module ImapSequence {
  import opened Collections

  type Uid = nat

  const UINT32: nat := 0x1_0000_0000

  /** seqNum - 1 on unsigned 32-bit integers. */
  function IndexOf(seqNum: nat): nat {
    (seqNum + UINT32 - 1) % UINT32
  }

  /** Handling one EXPUNGE: what is left and which uid is reported, or None for an index out of range. */
  function Consume(seqMap: seq<Uid>, seqNum: nat): Option<(seq<Uid>, Uid)> {
    var i := IndexOf(seqNum);
    if i < |seqMap| then Some((RemoveAt(seqMap, i), seqMap[i])) else None
  }

  function ConsumeAll(seqMap: seq<Uid>, nums: seq<nat>): Option<(seq<Uid>, seq<Uid>)> {
    if nums == [] then Some((seqMap, []))
    else
      match ConsumeAll(seqMap, nums[..|nums| - 1])
      case None => None
      case Some((m, deleted)) =>
        match Consume(m, nums[|nums| - 1])
        case None => None
        case Some((m', uid)) => Some((m', deleted + [uid]))
  }

  function Store(seqMap: seq<Uid>, seqNum: nat, uid: Uid): Option<seq<Uid>> {
    if IndexOf(seqNum) < |seqMap| then Some(seqMap[IndexOf(seqNum) := uid]) else None
  }

  function Resize(seqMap: seq<Uid>, n: nat): seq<Uid> {
    if |seqMap| < n then Zeros(n) else seqMap
  }

  function Reversed(s: seq<Uid>): (r: seq<Uid>)
    ensures |r| == |s| && forall k :: 0 <= k < |s| ==> r[k] == s[|s| - 1 - k]
  {
    seq(|s|, k requires 0 <= k < |s| => s[|s| - 1 - k])
  }

  /** A method that hits an index out of range stops there, as the program does. */
  class ImapWorker {
    var seqMap: seq<Uid>
    var deletedPosts: seq<seq<Uid>>

    constructor ()
      ensures seqMap == [] && deletedPosts == []
    {
      seqMap, deletedPosts := [], [];
    }

    /** The loop over the numbers the EXPUNGE command yields. */
    method HandleDeleteMessages(nums: seq<nat>, expungeFails: bool) returns (panicked: bool)
      modifies this
      ensures panicked == ConsumeAll(old(seqMap), nums).None?
      ensures !panicked ==> seqMap == ConsumeAll(old(seqMap), nums).value.0
      ensures deletedPosts == if panicked || expungeFails then old(deletedPosts)
        else old(deletedPosts) + [ConsumeAll(old(seqMap), nums).value.1]
    {
      var deleted := [];
      for k := 0 to |nums|
        invariant ConsumeAll(old(seqMap), nums[..k]) == Some((seqMap, deleted))
        invariant deletedPosts == old(deletedPosts)
      {
        var i := IndexOf(nums[k]);
        assert nums[..k + 1][..k] == nums[..k];
        if i >= |seqMap| {
          PanicSticks(old(seqMap), nums, k + 1);
          return true;
        }
        deleted := deleted + [seqMap[i]];
        seqMap := seqMap[..i] + seqMap[i + 1..];
      }
      assert nums[..|nums|] == nums;
      if !expungeFails {
        deletedPosts := deletedPosts + [deleted];
      }
      return false;
    }

    /** The ExpungeUpdate case of handleImapUpdate. */
    method HandleExpungeUpdate(seqNum: nat) returns (panicked: bool)
      modifies this
      ensures panicked == Consume(old(seqMap), seqNum).None?
      ensures panicked ==> seqMap == old(seqMap) && deletedPosts == old(deletedPosts)
      ensures !panicked ==> seqMap == Consume(old(seqMap), seqNum).value.0
      ensures !panicked ==> deletedPosts == old(deletedPosts) + [[Consume(old(seqMap), seqNum).value.1]]
    {
      var i := IndexOf(seqNum);
      if i >= |seqMap| {
        return true;
      }
      var uid := seqMap[i];
      seqMap := seqMap[..i] + seqMap[i + 1..];
      deletedPosts := deletedPosts + [[uid]];
      return false;
    }

    /** The MessageUpdate case: a flags update that carries no uid. */
    method HandleMessageUpdate(seqNum: nat, given: Uid) returns (uid: Option<Uid>)
      ensures uid == if given != 0 then Some(given)
        else if IndexOf(seqNum) < |seqMap| then Some(seqMap[IndexOf(seqNum)]) else None
    {
      if given == 0 {
        if IndexOf(seqNum) >= |seqMap| {
          return None;
        }
        return Some(seqMap[IndexOf(seqNum)]);
      }
      return Some(given);
    }

    /** The line of handleFetchMessages that fills the map. */
    method HandleFetched(seqNum: nat, uid: Uid) returns (panicked: bool)
      modifies this`seqMap
      ensures panicked == Store(old(seqMap), seqNum, uid).None?
      ensures Some(seqMap) == if panicked then Some(old(seqMap)) else Store(old(seqMap), seqNum, uid)
    {
      if IndexOf(seqNum) >= |seqMap| {
        return true;
      }
      seqMap := seqMap[IndexOf(seqNum) := uid];
      return false;
    }

    /** The loop of handleFetchDirectoryContents. */
    static method ReverseInPlace(uids: array<Uid>)
      modifies uids
      ensures uids[..] == Reversed(old(uids[..]))
    {
      var i, j := 0, uids.Length - 1;
      while i < j
        invariant 0 <= i && j == uids.Length - 1 - i && i <= j + 1
        invariant forall k :: 0 <= k < i || j < k < uids.Length ==> uids[k] == old(uids[uids.Length - 1 - k])
        invariant forall k :: i <= k <= j ==> uids[k] == old(uids[k])
      {
        uids[i], uids[j] := uids[j], uids[i];
        i, j := i + 1, j - 1;
      }
    }

    /** handleFetchDirectoryContents: the uids are turned around in place when the server sorted them. */
    method HandleFetchDirectoryContents(uids: array<Uid>, serverSorted: bool)
      modifies this`seqMap, uids
      ensures uids[..] == if serverSorted then Reversed(old(uids[..])) else old(uids[..])
      ensures seqMap == Resize(old(seqMap), uids.Length)
    {
      if serverSorted {
        ReverseInPlace(uids);
      }
      if |seqMap| < uids.Length {
        seqMap := Zeros(uids.Length);
      }
    }
  }

  lemma {:induction false} PanicSticks(seqMap: seq<Uid>, nums: seq<nat>, k: nat)
    requires k <= |nums| && ConsumeAll(seqMap, nums[..k]).None?
    ensures ConsumeAll(seqMap, nums).None?
    decreases |nums|
  {
    if k < |nums| {
      assert nums[..|nums| - 1][..k] == nums[..k];
      PanicSticks(seqMap, nums[..|nums| - 1], k);
    } else {
      assert nums[..k] == nums;
    }
  }

  // ---------------------------------------------------------------------------
  // The mailbox on the server and the map in the worker
  // ---------------------------------------------------------------------------

  /**
   pending: the EXPUNGE numbers in the channel of updates, sent but not yet handled.
   view: the mailbox as the numbers handled so far describe it.  late: how many messages
   have arrived since the mailbox was last listed, or all of them before the first
   listing.  dropped and told: the uids the server removed from this mailbox, and what
   the worker said of each, nothing if it was swallowed by a failing command.
   */
  datatype State = State(
    server: seq<Uid>, pending: seq<nat>, seqMap: seq<Uid>, view: seq<Uid>, late: nat,
    dropped: seq<Uid>, told: seq<Option<Uid>>, panicked: bool)

  datatype Event =
    | Expunge(n: nat)                        // the server removes message n, and an update says so
    | New(uid: Uid)                          // a message arrives
    | Handle                                 // the worker handles the oldest update
    | Delete(nums: seq<nat>, fails: bool)    // handleDeleteMessages: what it is told is handled at once
    | Fetch(n: nat)                          // a FETCH response for message n
    | Rescan                                 // FetchDirectoryContents
    | Switch(box: seq<Uid>)                  // OpenDirectory of another mailbox, then FetchDirectoryContents

  /** The server does what it likes, and the worker does not wait for updates to be handled. */
  ghost predicate Enabled(s: State, e: Event) {
    && !s.panicked
    && match e
       case Expunge(n) => 1 <= n <= |s.server|
       case New(uid) => uid > 0 && uid !in s.server && uid !in s.view && |s.server| < UINT32 - 1 && |s.view| < UINT32 - 1
       case Handle => s.pending != []
       case Delete(nums, _) => Valid(s.server, nums)
       case Fetch(n) => 1 <= n <= |s.server|
       case Rescan => true
       case Switch(box) => Mailbox(box)
  }

  /** What is left of a mailbox, if the numbers make sense for it. */
  function Less(box: seq<Uid>, nums: seq<nat>): seq<Uid> {
    if Valid(box, nums) then After(box, nums) else box
  }

  function Verdicts(deleted: seq<Uid>, fails: bool): seq<Option<Uid>> {
    seq(|deleted|, i requires 0 <= i < |deleted| => if fails then None else Some(deleted[i]))
  }

  /** Updates in the channel stay there when another mailbox is opened. */
  ghost function Apply(s: State, e: Event): State
    requires Enabled(s, e)
  {
    match e
    case Expunge(n) =>
      s.(server := RemoveAt(s.server, n - 1), pending := s.pending + [n], dropped := s.dropped + [s.server[n - 1]])
    case New(uid) => s.(server := s.server + [uid], view := s.view + [uid], late := s.late + 1)
    case Handle =>
      (match Consume(s.seqMap, s.pending[0])
       case None => s.(panicked := true)
       case Some((m, uid)) =>
         s.(pending := s.pending[1..], seqMap := m, told := s.told + [Some(uid)], view := Less(s.view, [s.pending[0]])))
    case Delete(nums, fails) =>
      (match ConsumeAll(s.seqMap, nums)
       case None => s.(panicked := true)
       case Some((m, deleted)) =>
         s.(server := After(s.server, nums), seqMap := m, view := Less(s.view, nums),
            dropped := s.dropped + Dropped(s.server, nums), told := s.told + Verdicts(deleted, fails)))
    case Fetch(n) =>
      (match Store(s.seqMap, n, s.server[n - 1])
       case None => s.(panicked := true)
       case Some(m) => s.(seqMap := m))
    case Rescan => s.(seqMap := Resize(s.seqMap, |s.server|), late := if s.late < |s.pending| then s.late else |s.pending|)
    case Switch(box) => State(box, s.pending, Resize(s.seqMap, |box|), box, 0, [], [], false)
  }

  ghost function Exec(start: State, run: seq<Event>): Option<State> {
    if run == [] then Some(start)
    else
      var before := Exec(start, run[..|run| - 1]);
      if before.Some? && Enabled(before.value, run[|run| - 1])
      then Some(Apply(before.value, run[|run| - 1]))
      else None
  }

  /** The uids reported deleted. */
  function Reported(told: seq<Option<Uid>>): seq<Uid> {
    if told == [] then []
    else Reported(told[..|told| - 1]) + if told[|told| - 1].Some? then [told[|told| - 1].value] else []
  }

  ghost predicate Mailbox(s: seq<Uid>) {
    Distinct(s) && |s| < UINT32 && forall i :: 0 <= i < |s| ==> s[i] > 0
  }

  /** A mailbox just opened, with an empty map. */
  ghost predicate Start(s: State) {
    Mailbox(s.server) && s.view == s.server && s.pending == [] && s.seqMap == [] && s.late == |s.server| &&
    s.dropped == [] && s.told == [] && !s.panicked
  }

  /** The numbers are valid one after the other. */
  predicate Valid(box: seq<Uid>, nums: seq<nat>) {
    nums == [] || (1 <= nums[0] <= |box| && Valid(RemoveAt(box, nums[0] - 1), nums[1..]))
  }

  /** The mailbox after the server's removals, per section 7.4.1 of RFC 3501. */
  function After(box: seq<Uid>, nums: seq<nat>): seq<Uid>
    requires Valid(box, nums)
  {
    if nums == [] then box else After(RemoveAt(box, nums[0] - 1), nums[1..])
  }

  function Dropped(box: seq<Uid>, nums: seq<nat>): seq<Uid>
    requires Valid(box, nums)
  {
    if nums == [] then [] else [box[nums[0] - 1]] + Dropped(RemoveAt(box, nums[0] - 1), nums[1..])
  }

  /** Every entry is still unknown or names the message at that position. */
  ghost predicate Agrees(seqMap: seq<Uid>, box: seq<Uid>) {
    |seqMap| <= |box| && forall i :: 0 <= i < |seqMap| ==> seqMap[i] == 0 || seqMap[i] == box[i]
  }

  ghost predicate Inv(s: State) {
    && Mailbox(s.view) && Mailbox(s.server)
    && Valid(s.view, s.pending) && After(s.view, s.pending) == s.server
    && Agrees(s.seqMap, s.view) && |s.seqMap| + s.late == |s.view|
    && Accounted(s.dropped, s.told, Dropped(s.view, s.pending))
  }

  /** What was dropped has been reported, as itself or as unknown, or swallowed, or is still to come. */
  ghost predicate Accounted(dropped: seq<Uid>, told: seq<Option<Uid>>, coming: seq<Uid>) {
    && (forall i :: 0 <= i < |dropped| ==> dropped[i] > 0)
    && |told| <= |dropped| && dropped[|told|..] == coming
    && (forall i :: 0 <= i < |told| ==> Fits(told[i], dropped[i]))
  }

  predicate Fits(verdict: Option<Uid>, uid: Uid) {
    verdict == None || verdict == Some(0) || verdict == Some(uid)
  }

  lemma AccountedReport(dropped: seq<Uid>, told: seq<Option<Uid>>, coming: seq<Uid>, uid: Uid)
    requires Accounted(dropped, told, coming) && coming != [] && (uid == 0 || uid == coming[0])
    ensures Accounted(dropped, told + [Some(uid)], coming[1..])
  {
    assert dropped[|told|] == coming[0];
  }

  lemma AccountedDrop(dropped: seq<Uid>, told: seq<Option<Uid>>, coming: seq<Uid>, uid: Uid)
    requires Accounted(dropped, told, coming) && uid > 0
    ensures Accounted(dropped + [uid], told, coming + [uid])
  {
  }

  lemma AccountedBatch(dropped: seq<Uid>, told: seq<Option<Uid>>, more: seq<Uid>, deleted: seq<Uid>, fails: bool)
    requires Accounted(dropped, told, []) && |deleted| == |more|
    requires forall i :: 0 <= i < |more| ==> more[i] > 0 && (deleted[i] == 0 || deleted[i] == more[i])
    ensures Accounted(dropped + more, told + Verdicts(deleted, fails), [])
  {
    assert |told| == |dropped| by {
      assert |dropped[|told|..]| == 0;
    }
  }

  /** The uids reported are the uids dropped exactly if none was swallowed and none was unknown. */
  lemma {:induction false} ReportedAt(told: seq<Option<Uid>>)
    ensures |Reported(told)| <= |told|
    ensures |Reported(told)| == |told| <==> forall i :: 0 <= i < |told| ==> told[i].Some?
    ensures |Reported(told)| == |told| ==> forall i :: 0 <= i < |told| ==> told[i] == Some(Reported(told)[i])
  {
    if told != [] {
      var front, last := told[..|told| - 1], told[|told| - 1];
      ReportedAt(front);
      assert told == front + [last];
    }
  }

  lemma ReportedIff(dropped: seq<Uid>, told: seq<Option<Uid>>)
    requires Accounted(dropped, told, [])
    ensures Reported(told) == dropped <==> forall i :: 0 <= i < |told| ==> told[i] != None && told[i] != Some(0)
  {
    assert |told| == |dropped| by {
      assert |dropped[|told|..]| == 0;
    }
    ReportedAt(told);
    if Reported(told) == dropped {
      forall i | 0 <= i < |told| ensures told[i] != None && told[i] != Some(0) {
        assert told[i] == Some(dropped[i]);
      }
    }
  }

  lemma {:induction false} AfterAppend(box: seq<Uid>, nums: seq<nat>, n: nat)
    requires Valid(box, nums) && 1 <= n <= |After(box, nums)|
    ensures Valid(box, nums + [n])
    ensures After(box, nums + [n]) == RemoveAt(After(box, nums), n - 1)
    ensures Dropped(box, nums + [n]) == Dropped(box, nums) + [After(box, nums)[n - 1]]
    decreases |nums|
  {
    if nums != [] {
      assert (nums + [n])[1..] == nums[1..] + [n];
      AfterAppend(RemoveAt(box, nums[0] - 1), nums[1..], n);
    } else {
      assert (nums + [n])[1..] == [];
    }
  }

  /** A message at the end does not disturb the numbers of those before it. */
  lemma {:induction false} AfterArrival(box: seq<Uid>, nums: seq<nat>, uid: Uid)
    requires Valid(box, nums)
    ensures Valid(box + [uid], nums)
    ensures After(box + [uid], nums) == After(box, nums) + [uid]
    ensures Dropped(box + [uid], nums) == Dropped(box, nums)
    decreases |nums|
  {
    if nums != [] {
      assert RemoveAt(box + [uid], nums[0] - 1) == RemoveAt(box, nums[0] - 1) + [uid];
      AfterArrival(RemoveAt(box, nums[0] - 1), nums[1..], uid);
    }
  }

  lemma RemoveKeepsMailbox(box: seq<Uid>, i: nat)
    requires Mailbox(box) && i < |box|
    ensures Mailbox(RemoveAt(box, i))
  {
  }

  lemma HandledView(view: seq<Uid>, pending: seq<nat>, seqMap: seq<Uid>)
    requires Mailbox(view) && pending != [] && Valid(view, pending) && Agrees(seqMap, view) && pending[0] <= |seqMap|
    ensures var i, rest := pending[0] - 1, pending[1..];
      && Mailbox(RemoveAt(view, i)) && Valid(RemoveAt(view, i), rest)
      && After(RemoveAt(view, i), rest) == After(view, pending)
      && Dropped(view, pending) != [] && Dropped(view, pending)[0] == view[i]
      && Dropped(view, pending)[1..] == Dropped(RemoveAt(view, i), rest)
      && Agrees(RemoveAt(seqMap, i), RemoveAt(view, i))
      && (seqMap[i] == 0 || seqMap[i] == view[i])
  {
    RemoveKeepsMailbox(view, pending[0] - 1);
  }

  lemma {:induction false} ValidPrefix(box: seq<Uid>, nums: seq<nat>)
    requires Valid(box, nums) && nums != []
    ensures var front := nums[..|nums| - 1];
      Valid(box, front) && 1 <= nums[|nums| - 1] <= |After(box, front)|
    decreases |nums|
  {
    if |nums| > 1 {
      ValidPrefix(RemoveAt(box, nums[0] - 1), nums[1..]);
      assert nums[1..][..|nums| - 2] == nums[..|nums| - 1][1..];
    }
  }

  lemma {:induction false} AfterLength(box: seq<Uid>, nums: seq<nat>)
    requires Valid(box, nums)
    ensures |After(box, nums)| == |box| - |nums| && |Dropped(box, nums)| == |nums|
    decreases |nums|
  {
    if nums != [] {
      AfterLength(RemoveAt(box, nums[0] - 1), nums[1..]);
    }
  }

  /** Whether numbers are valid depends on the length of the mailbox only. */
  lemma {:induction false} ValidByLength(a: seq<Uid>, b: seq<Uid>, nums: seq<nat>)
    requires |a| <= |b| && Valid(a, nums)
    ensures Valid(b, nums)
    decreases |nums|
  {
    if nums != [] {
      ValidByLength(RemoveAt(a, nums[0] - 1), RemoveAt(b, nums[0] - 1), nums[1..]);
    }
  }

  lemma {:induction false} AfterIsMailbox(box: seq<Uid>, nums: seq<nat>)
    requires Mailbox(box) && Valid(box, nums)
    ensures Mailbox(After(box, nums))
    ensures forall i :: 0 <= i < |Dropped(box, nums)| ==> Dropped(box, nums)[i] > 0
    decreases |nums|
  {
    if nums != [] {
      RemoveKeepsMailbox(box, nums[0] - 1);
      AfterIsMailbox(RemoveAt(box, nums[0] - 1), nums[1..]);
    }
  }

  lemma ConsumeStep(seqMap: seq<Uid>, box: seq<Uid>, n: nat)
    requires Agrees(seqMap, box) && |box| < UINT32 && 1 <= n <= |box|
    ensures Consume(seqMap, n) == if n <= |seqMap| then Some((RemoveAt(seqMap, n - 1), seqMap[n - 1])) else None
    ensures n <= |seqMap| ==>
      Agrees(RemoveAt(seqMap, n - 1), RemoveAt(box, n - 1)) && (seqMap[n - 1] == 0 || seqMap[n - 1] == box[n - 1])
  {
    assert IndexOf(n) == n - 1;
  }

  /** Some number names a message beyond the map as it is by then. */
  predicate Beyond(seqMap: seq<Uid>, nums: seq<nat>) {
    exists k :: 0 <= k < |nums| && nums[k] > |seqMap| - k
  }

  lemma BeyondSnoc(seqMap: seq<Uid>, front: seq<nat>, n: nat)
    ensures Beyond(seqMap, front + [n]) <==> Beyond(seqMap, front) || n > |seqMap| - |front|
  {
    var nums := front + [n];
    if Beyond(seqMap, front) {
      var k :| 0 <= k < |front| && front[k] > |seqMap| - k;
      assert nums[k] > |seqMap| - k;
    }
    if n > |seqMap| - |front| {
      assert nums[|front|] > |seqMap| - |front|;
    }
  }

  /**
   The deletion loop on a whole batch.  It goes out of range exactly if a number names a
   message beyond the map; otherwise it reports for each number the dropped uid or an
   unknown zero, and leaves a map that agrees with what the server is left with.
   */
  lemma {:induction false} BatchKeeps(seqMap: seq<Uid>, box: seq<Uid>, nums: seq<nat>)
    requires Mailbox(box) && Valid(box, nums) && Agrees(seqMap, box)
    ensures ConsumeAll(seqMap, nums).None? <==> Beyond(seqMap, nums)
    ensures ConsumeAll(seqMap, nums).Some? ==>
      var (m, deleted) := ConsumeAll(seqMap, nums).value;
      && |m| == |seqMap| - |nums| && Agrees(m, After(box, nums))
      && |deleted| == |Dropped(box, nums)|
      && (forall i :: 0 <= i < |deleted| ==> deleted[i] == 0 || deleted[i] == Dropped(box, nums)[i])
      && (seqMap == box ==> m == After(box, nums) && deleted == Dropped(box, nums))
    decreases |nums|
  {
    if nums != [] {
      var front, n := nums[..|nums| - 1], nums[|nums| - 1];
      ValidPrefix(box, nums);
      BatchKeeps(seqMap, box, front);
      AfterLength(box, front);
      AfterAppend(box, front, n);
      assert front + [n] == nums;
      BeyondSnoc(seqMap, front, n);
      AfterIsMailbox(box, front);
      if ConsumeAll(seqMap, front).Some? {
        ConsumeStep(ConsumeAll(seqMap, front).value.0, After(box, front), n);
      }
    }
  }

  /** With a map of the mailbox's size the loop never goes out of range. */
  lemma BatchReportsDropped(seqMap: seq<Uid>, box: seq<Uid>, nums: seq<nat>)
    requires Mailbox(box) && Valid(box, nums) && |seqMap| == |box| && Agrees(seqMap, box)
    ensures ConsumeAll(seqMap, nums).Some?
    ensures var (m, deleted) := ConsumeAll(seqMap, nums).value;
      && |m| == |After(box, nums)| && Agrees(m, After(box, nums))
      && |deleted| == |Dropped(box, nums)|
      && (forall i :: 0 <= i < |deleted| ==> deleted[i] == 0 || deleted[i] == Dropped(box, nums)[i])
      && (seqMap == box ==> m == After(box, nums) && deleted == Dropped(box, nums))
  {
    BatchKeeps(seqMap, box, nums);
    NoneBeyond(box, nums);
    AfterLength(box, nums);
    assert !Beyond(seqMap, nums);
  }

  lemma {:induction false} NoneBeyond(box: seq<Uid>, nums: seq<nat>)
    requires Valid(box, nums)
    ensures forall k :: 0 <= k < |nums| ==> nums[k] <= |box| - k
    decreases |nums|
  {
    if nums != [] {
      NoneBeyond(RemoveAt(box, nums[0] - 1), nums[1..]);
      forall k | 0 <= k < |nums| ensures nums[k] <= |box| - k {
        if k > 0 {
          assert nums[1..][k - 1] == nums[k];
        }
      }
    }
  }

  lemma OneRemoved(box: seq<Uid>, n: nat)
    requires 1 <= n <= |box|
    ensures Valid(box, [n]) && After(box, [n]) == Less(box, [n]) == RemoveAt(box, n - 1)
    ensures Dropped(box, [n]) == [box[n - 1]]
  {
    assert [n][1..] == [];
  }

  // Steps

  lemma HandleKeeps(s: State)
    requires Inv(s) && Enabled(s, Handle)
    ensures Inv(Apply(s, Handle))
  {
    var n := s.pending[0];
    assert IndexOf(n) == n - 1;
    if n <= |s.seqMap| {
      HandledView(s.view, s.pending, s.seqMap);
      AccountedReport(s.dropped, s.told, Dropped(s.view, s.pending), s.seqMap[n - 1]);
      OneRemoved(s.view, n);
    }
  }

  lemma ExpungeKeeps(s: State, e: Event)
    requires Inv(s) && e.Expunge? && Enabled(s, e)
    ensures Inv(Apply(s, e))
  {
    RemoveKeepsMailbox(s.server, e.n - 1);
    AfterAppend(s.view, s.pending, e.n);
    AccountedDrop(s.dropped, s.told, Dropped(s.view, s.pending), s.server[e.n - 1]);
  }

  lemma NewKeeps(s: State, uid: Uid)
    requires Inv(s) && Enabled(s, New(uid))
    ensures Inv(Apply(s, New(uid)))
  {
    AfterArrival(s.view, s.pending, uid);
  }

  lemma DeleteKeeps(s: State, nums: seq<nat>, fails: bool)
    requires Inv(s) && Enabled(s, Delete(nums, fails)) && s.pending == []
    ensures Inv(Apply(s, Delete(nums, fails)))
  {
    BatchKeeps(s.seqMap, s.view, nums);
    AfterIsMailbox(s.view, nums);
    AfterLength(s.view, nums);
    if !Beyond(s.seqMap, nums) {
      AccountedBatch(s.dropped, s.told, Dropped(s.view, nums), ConsumeAll(s.seqMap, nums).value.1, fails);
    }
  }

  lemma RescanKeeps(s: State)
    requires Inv(s)
    ensures Enabled(s, Rescan) || s.panicked
    ensures !s.panicked ==> Inv(Apply(s, Rescan))
  {
    AfterLength(s.view, s.pending);
  }

  /** A FETCH response names the message its number had before the updates still in the channel. */
  lemma FetchKeepsIff(s: State, n: nat)
    requires Inv(s) && Enabled(s, Fetch(n)) && !Apply(s, Fetch(n)).panicked
    ensures Inv(Apply(s, Fetch(n))) <==> forall k :: 0 <= k < |s.pending| ==> s.pending[k] > n
  {
    SamePositionIff(s.view, s.pending, n);
    assert IndexOf(n) == n - 1;
    var m := Apply(s, Fetch(n)).seqMap;
    assert m[n - 1] == s.server[n - 1] > 0;
    if s.server[n - 1] == s.view[n - 1] {
      assert Agrees(m, s.view);
    }
  }

  /**
   A change of mailbox leaves the map right exactly if it is made anew for want of length,
   or the old entries happen to name the new messages.
   */
  lemma ResizedAgreesIff(seqMap: seq<Uid>, box: seq<Uid>)
    ensures Agrees(Resize(seqMap, |box|), box) <==> |seqMap| < |box| || Agrees(seqMap, box)
  {
  }

  /** And updates still in the channel would be taken for the new mailbox's. */
  lemma SwitchKeepsIff(s: State, box: seq<Uid>)
    requires Inv(s) && Enabled(s, Switch(box))
    ensures Inv(Apply(s, Switch(box))) <==> s.pending == [] && (|s.seqMap| < |box| || Agrees(s.seqMap, box))
  {
    ResizedAgreesIff(s.seqMap, box);
    if Valid(box, s.pending) {
      AfterLength(box, s.pending);
    }
  }

  /**
   What the worker does past the channel must not overtake updates in it: a FETCH only
   those that are of later messages, its own deletions and a change of mailbox none.
   */
  ghost predicate InOrder(s: State, e: Event) {
    match e
    case Fetch(n) => forall k :: 0 <= k < |s.pending| ==> s.pending[k] > n
    case Delete(_, _) => s.pending == []
    case Switch(box) => s.pending == [] && (|s.seqMap| < |box| || Agrees(s.seqMap, box))
    case _ => true
  }

  ghost predicate AllInOrder(start: State, run: seq<Event>)
    requires Exec(start, run).Some?
    decreases |run|
  {
    run == [] ||
      (AllInOrder(start, run[..|run| - 1]) && InOrder(Exec(start, run[..|run| - 1]).value, run[|run| - 1]))
  }

  lemma {:induction false} StepKeeps(s: State, e: Event)
    requires Inv(s) && Enabled(s, e) && InOrder(s, e)
    ensures Inv(Apply(s, e))
  {
    match e
    case Expunge(_) => ExpungeKeeps(s, e);
    case New(uid) => NewKeeps(s, uid);
    case Handle => HandleKeeps(s);
    case Delete(nums, fails) => DeleteKeeps(s, nums, fails);
    case Fetch(n) =>
      if !Apply(s, e).panicked {
        FetchKeepsIff(s, n);
      }
    case Rescan => RescanKeeps(s);
    case Switch(box) => SwitchKeepsIff(s, box);
  }

  lemma {:induction false} RunKeeps(start: State, run: seq<Event>)
    requires Start(start) && Exec(start, run).Some? && AllInOrder(start, run)
    ensures Inv(Exec(start, run).value)
  {
    if run != [] {
      RunKeeps(start, run[..|run| - 1]);
      StepKeeps(Exec(start, run[..|run| - 1]).value, run[|run| - 1]);
    }
  }

  /**
   The map under a lagging stream of updates and the worker's own deletions, failing ones
   among them: each entry is unknown or the uid at that position of the mailbox as told
   so far; with nothing pending that is the server's mailbox; each uid reported deleted
   is the one the server dropped, except where the entry was still unknown; and with
   nothing pending the uids reported are all those dropped exactly if none was unknown
   and none was swallowed by a failing command.
   */
  lemma MapFollowsServer(start: State, run: seq<Event>)
    requires Start(start) && Exec(start, run).Some? && AllInOrder(start, run)
    ensures var s := Exec(start, run).value;
      && Agrees(s.seqMap, s.view)
      && |s.told| <= |s.dropped|
      && (forall i :: 0 <= i < |s.told| ==> Fits(s.told[i], s.dropped[i]))
      && (s.pending == [] ==>
            && Agrees(s.seqMap, s.server)
            && |s.told| == |s.dropped|
            && (Reported(s.told) == s.dropped <==>
                  forall i :: 0 <= i < |s.told| ==> s.told[i] != None && s.told[i] != Some(0)))
  {
    RunKeeps(start, run);
    var s := Exec(start, run).value;
    if s.pending == [] {
      assert |s.dropped[|s.told|..]| == 0;
      ReportedIff(s.dropped, s.told);
    }
  }

  // What out of order means

  /**
   Why fetches must wait: with numbers pending, position n of the server is position n
   of the mailbox as told so far exactly when every pending number is greater than n.
   */
  lemma {:induction false} SamePositionIff(box: seq<Uid>, nums: seq<nat>, n: nat)
    requires Distinct(box) && Valid(box, nums) && 1 <= n <= |After(box, nums)|
    ensures n <= |box|
    ensures After(box, nums)[n - 1] == box[n - 1] <==> forall k :: 0 <= k < |nums| ==> nums[k] > n
    decreases |nums|
  {
    if nums != [] {
      var rest := RemoveAt(box, nums[0] - 1);
      SamePositionIff(rest, nums[1..], n);
      if nums[0] > n {
        assert rest[n - 1] == box[n - 1];
        assert nums == [nums[0]] + nums[1..];
      } else {
        ComesFromLater(rest, nums[1..], n);
        var k :| n - 1 <= k < |rest| && After(rest, nums[1..])[n - 1] == rest[k];
        assert rest[k] == box[k + 1];
      }
    }
  }

  /** Removals only move messages towards the front. */
  lemma {:induction false} ComesFromLater(box: seq<Uid>, nums: seq<nat>, n: nat)
    requires Valid(box, nums) && 1 <= n <= |After(box, nums)|
    ensures exists k :: n - 1 <= k < |box| && After(box, nums)[n - 1] == box[k]
    decreases |nums|
  {
    if nums != [] {
      var rest := RemoveAt(box, nums[0] - 1);
      ComesFromLater(rest, nums[1..], n);
      var k :| n - 1 <= k < |rest| && After(rest, nums[1..])[n - 1] == rest[k];
      assert rest[k] == box[if k < nums[0] - 1 then k else k + 1];
    } else {
      assert After(box, nums)[n - 1] == box[n - 1];
    }
  }

  /** Removing two messages of a mailbox by number, in either order. */
  lemma TwoRemovalsIff(box: seq<Uid>, p: nat, n: nat)
    requires Distinct(box) && 1 <= p <= |box| && 1 <= n < |box|
    ensures p < |box| && RemoveAt(RemoveAt(box, n - 1), p - 1) == RemoveAt(RemoveAt(box, p - 1), n - 1) <==> n == p
  {
    var x := RemoveAt(RemoveAt(box, p - 1), n - 1);
    if p < |box| && n < p {
      var y := RemoveAt(RemoveAt(box, n - 1), p - 1);
      assert y[p - 2] == box[p - 1] && x[p - 2] == box[p];
    } else if n > p {
      var y := RemoveAt(RemoveAt(box, n - 1), p - 1);
      assert y[n - 2] == box[n] && x[n - 2] == box[n - 1];
    }
  }

  lemma ConsumeOne(seqMap: seq<Uid>, n: nat)
    requires 1 <= n <= |seqMap| < UINT32
    ensures ConsumeAll(seqMap, [n]) == Some((RemoveAt(seqMap, n - 1), [seqMap[n - 1]]))
  {
    assert [n][..0] == [] && IndexOf(n) == n - 1;
    assert ConsumeAll(seqMap, []) == Some((seqMap, []));
    assert [] + [seqMap[n - 1]] == [seqMap[n - 1]];
  }

  /** A deletion of one message, written out. */
  lemma DeleteOne(s: State, n: nat)
    requires !s.panicked && 1 <= n <= |s.server| && n <= |s.seqMap| < UINT32 && n <= |s.view|
    ensures Enabled(s, Delete([n], false))
    ensures Apply(s, Delete([n], false)) ==
      s.(server := RemoveAt(s.server, n - 1), seqMap := RemoveAt(s.seqMap, n - 1), view := RemoveAt(s.view, n - 1),
         dropped := s.dropped + [s.server[n - 1]], told := s.told + [Some(s.seqMap[n - 1])])
  {
    OneRemoved(s.server, n);
    OneRemoved(s.view, n);
    ConsumeOne(s.seqMap, n);
    assert Verdicts([s.seqMap[n - 1]], false) == [Some(s.seqMap[n - 1])];
  }

  /** The only update handled, written out. */
  lemma HandleOne(s: State, n: nat)
    requires !s.panicked && s.pending == [n] && 1 <= n < UINT32
    ensures Apply(s, Handle) ==
      if n > |s.seqMap| then s.(panicked := true)
      else s.(pending := [], seqMap := RemoveAt(s.seqMap, n - 1), told := s.told + [Some(s.seqMap[n - 1])],
              view := if n <= |s.view| then RemoveAt(s.view, n - 1) else s.view)
  {
    assert IndexOf(n) == n - 1 && [n][1..] == [];
    if n <= |s.view| {
      OneRemoved(s.view, n);
    }
  }

  /**
   The worker's own deletion of message n overtakes the update for message p.  On a
   loaded map the two, both handled, leave the server's mailbox exactly if n == p; else
   the map is wrong or, if p was the last message, the worker goes out of range.
   */
  lemma OvertakingIff(s: State, p: nat, n: nat)
    requires Inv(s) && s.seqMap == s.view && s.pending == [p] && Enabled(s, Delete([n], false))
    ensures var t := Apply(s, Delete([n], false));
      && Enabled(t, Handle)
      && var u := Apply(t, Handle);
         && (u.panicked <==> p == |s.view|)
         && (!u.panicked && u.seqMap == u.server <==> n == p)
  {
    OneRemoved(s.view, p);
    assert s.server == RemoveAt(s.view, p - 1);
    DeleteOne(s, n);
    HandleOne(Apply(s, Delete([n], false)), p);
    TwoRemovalsIff(s.view, p, n);
  }

  /** Whatever is loaded, the invariant survives the deletion exactly then. */
  lemma DeleteKeepsIff(s: State, p: nat, n: nat)
    requires Inv(s) && s.pending == [p] && Enabled(s, Delete([n], false)) && n <= |s.seqMap|
    ensures Inv(Apply(s, Delete([n], false))) <==> n == p
  {
    OneRemoved(s.view, p);
    assert s.server == RemoveAt(s.view, p - 1);
    DeleteOne(s, n);
    TwoRemovalsIff(s.view, p, n);
    var t := Apply(s, Delete([n], false));
    if n == p {
      OvertakenSame(s, p);
    } else if p <= |t.view| {
      OneRemoved(t.view, p);
    }
  }

  lemma OvertakenSame(s: State, p: nat)
    requires Inv(s) && s.pending == [p] && Enabled(s, Delete([p], false)) && p <= |s.seqMap|
    ensures Inv(Apply(s, Delete([p], false)))
  {
    var rest := RemoveAt(s.view, p - 1);
    OneRemoved(s.view, p);
    OneRemoved(rest, p);
    DeleteOne(s, p);
    RemoveKeepsMailbox(s.view, p - 1);
    RemoveKeepsMailbox(rest, p - 1);
    OvertakenAccounts(s.dropped, s.told, s.view[p - 1], s.seqMap[p - 1], rest[p - 1]);
  }

  lemma OvertakenAccounts(dropped: seq<Uid>, told: seq<Option<Uid>>, gone: Uid, said: Uid, next: Uid)
    requires Accounted(dropped, told, [gone]) && (said == 0 || said == gone) && next > 0
    ensures Accounted(dropped + [next], told + [Some(said)], [next])
  {
    AccountedReport(dropped, told, [gone], said);
    assert [gone][1..] == [];
    AccountedDrop(dropped, told + [Some(said)], [], next);
    assert [] + [next] == [next];
  }

  lemma ExecSnoc(start: State, run: seq<Event>, e: Event)
    requires Exec(start, run).Some? && Enabled(Exec(start, run).value, e)
    ensures Exec(start, run + [e]) == Some(Apply(Exec(start, run).value, e))
  {
    assert (run + [e])[..|run|] == run;
  }

  /** Three events in a row. */
  lemma ExecThree(s: State, a: Event, b: Event, c: Event)
    requires Enabled(s, a) && Enabled(Apply(s, a), b) && Enabled(Apply(Apply(s, a), b), c)
    ensures Exec(s, [a, b, c]) == Some(Apply(Apply(Apply(s, a), b), c))
  {
    assert [] + [a] == [a];
    ExecSnoc(s, [], a);
    ExecSnoc(s, [a], b);
    assert [a] + [b] == [a, b];
    ExecSnoc(s, [a, b], c);
    assert [a, b] + [c] == [a, b, c];
  }

  /** A mailbox of three messages, all of them loaded. */
  const LOADED := State([11, 12, 13], [], [11, 12, 13], [11, 12, 13], 0, [], [], false)

  lemma LoadedMinus()
    ensures Inv(LOADED)
    ensures RemoveAt(LOADED.view, 1) == [11, 13] && RemoveAt(LOADED.view, 0) == [12, 13]
    ensures RemoveAt<Uid>([11, 13], 0) == [13] && RemoveAt<Uid>([12, 13], 1) == [12]
  {
  }

  /** An instance: message 13 is reported deleted and stays, message 12 is deleted and stays in the map. */
  lemma OvertakingReportsTheWrongOne()
    ensures var run := [Expunge(2), Delete([1], false), Handle];
      && Exec(LOADED, run).Some?
      && var t := Exec(LOADED, run).value;
         !t.panicked && t.server == [13] && t.seqMap == [12] && t.told == [Some(11), Some(13)] && t.dropped == [12, 11]
  {
    LoadedMinus();
    var s := Apply(LOADED, Expunge(2));
    assert s.server == [11, 13] && s.dropped == [12] && s.pending == [2];
    DeleteOne(s, 1);
    var t := Apply(s, Delete([1], false));
    assert t.server == [13] && t.seqMap == [12, 13] && t.told == [Some(11)] && t.dropped == [12, 11];
    HandleOne(t, 2);
    ExecThree(LOADED, Expunge(2), Delete([1], false), Handle);
  }

  /** An instance: with every arrival listed, the worker goes out of range. */
  lemma OvertakingPanics()
    ensures var run := [Expunge(3), Delete([1], false), Handle];
      Exec(LOADED, run).Some? && Exec(LOADED, run).value.panicked
  {
    var s := Apply(LOADED, Expunge(3));
    assert s == State([11, 12], [3], [11, 12, 13], [11, 12, 13], 0, [13], [], false);
    DeleteOne(s, 1);
    HandleOne(Apply(s, Delete([1], false)), 3);
    ExecThree(LOADED, Expunge(3), Delete([1], false), Handle);
  }

  /**
   What a change of mailbox can do.  If the map was at least as long as the new mailbox,
   removing message n there is reported under the uid the previous mailbox had at
   position n, or as unknown; and that is right exactly if the entry is the new uid.
   */
  lemma SwitchedReport(s: State, box: seq<Uid>, n: nat)
    requires Inv(s) && s.pending == [] && Enabled(s, Switch(box)) && |s.seqMap| >= |box| && 1 <= n <= |box|
    ensures Exec(s, [Switch(box), Expunge(n), Handle]).Some?
    ensures var t := Exec(s, [Switch(box), Expunge(n), Handle]).value;
      && !t.panicked && t.dropped == [box[n - 1]] && t.told == [Some(s.seqMap[n - 1])]
      && (t.told == [Some(0)] || t.told == [Some(s.view[n - 1])])
      && (Reported(t.told) == t.dropped <==> s.seqMap[n - 1] == box[n - 1])
  {
    SwitchedSteps(s, box, n);
    ExecThree(s, Switch(box), Expunge(n), Handle);
    ReportedOne(s.seqMap[n - 1]);
  }

  lemma ReportedOne(uid: Uid)
    ensures Reported([Some(uid)]) == [uid]
  {
    assert [Some(uid)][..0] == [];
  }

  lemma SwitchedSteps(s: State, box: seq<Uid>, n: nat)
    requires Inv(s) && s.pending == [] && Enabled(s, Switch(box)) && |s.seqMap| >= |box| && 1 <= n <= |box|
    ensures var switched := Apply(s, Switch(box));
      && Enabled(switched, Expunge(n))
      && var expunged := Apply(switched, Expunge(n));
         && Enabled(expunged, Handle)
         && var t := Apply(expunged, Handle);
            !t.panicked && t.dropped == [box[n - 1]] && t.told == [Some(s.seqMap[n - 1])]
  {
    var expunged := Apply(Apply(s, Switch(box)), Expunge(n));
    assert expunged.pending == [n] && expunged.seqMap == s.seqMap;
    HandleOne(expunged, n);
  }

  /** An instance: in the second mailbox message 1, which is 4, is reported under the uid 7 of the first. */
  lemma FolderSwitchKeepsStaleEntries()
    ensures var s := State([7, 8, 9], [], [7, 8, 9], [7, 8, 9], 0, [], [], false);
      && Inv(s) && !Inv(Apply(s, Switch([4, 5])))
      && Exec(s, [Switch([4, 5]), Expunge(1), Handle]).Some?
      && Exec(s, [Switch([4, 5]), Expunge(1), Handle]).value.told == [Some(7)]
  {
    var s := State([7, 8, 9], [], [7, 8, 9], [7, 8, 9], 0, [], [], false);
    SwitchKeepsIff(s, [4, 5]);
    SwitchedReport(s, [4, 5], 1);
  }

  // Going out of range

  /**
   Over every run in order the worker goes out of range exactly when it is told of one of
   the messages that arrived after the last listing.
   */
  lemma PanicIff(start: State, run: seq<Event>, e: Event)
    requires Start(start) && Exec(start, run).Some? && AllInOrder(start, run)
    requires Enabled(Exec(start, run).value, e) && InOrder(Exec(start, run).value, e)
    ensures var s := Exec(start, run).value;
      && s.late <= |s.view|
      && (Apply(s, e).panicked <==>
            match e
            case Handle => s.pending[0] > |s.view| - s.late
            case Fetch(n) => n > |s.view| - s.late
            case Delete(nums, _) => exists k :: 0 <= k < |nums| && nums[k] > |s.view| - s.late - k
            case _ => false)
  {
    RunKeeps(start, run);
    PanicStep(Exec(start, run).value, e);
  }

  lemma PanicStep(s: State, e: Event)
    requires Inv(s) && Enabled(s, e) && InOrder(s, e)
    ensures s.late <= |s.view|
    ensures Apply(s, e).panicked <==>
            match e
            case Handle => s.pending[0] > |s.view| - s.late
            case Fetch(n) => n > |s.view| - s.late
            case Delete(nums, _) => exists k :: 0 <= k < |nums| && nums[k] > |s.view| - s.late - k
            case _ => false
  {
    match e
    case Handle => assert IndexOf(s.pending[0]) == s.pending[0] - 1;
    case Fetch(n) => assert IndexOf(n) == n - 1;
    case Delete(nums, _) =>
      BatchKeeps(s.seqMap, s.view, nums);
      assert |s.seqMap| == |s.view| - s.late;
      assert Beyond(s.seqMap, nums) <==> exists k :: 0 <= k < |nums| && nums[k] > |s.view| - s.late - k;
    case _ =>
  }

  /** The mailbox has been listed, with no update in the channel, since the last arrival. */
  ghost predicate Listed(start: State, run: seq<Event>)
    requires Exec(start, run).Some?
    decreases |run|
  {
    && run != []
    && var front, e := run[..|run| - 1], run[|run| - 1];
       || e.Switch?
       || (e.Rescan? && Exec(start, front).value.pending == [])
       || (!e.New? && Listed(start, front))
  }

  lemma {:induction false} ListedNoneLate(start: State, run: seq<Event>)
    requires Exec(start, run).Some? && Listed(start, run)
    ensures Exec(start, run).value.late == 0
  {
    var front, e := run[..|run| - 1], run[|run| - 1];
    if !e.Switch? && !(e.Rescan? && Exec(start, front).value.pending == []) {
      ListedNoneLate(start, front);
    }
  }

  /** What the worker does, it does with the mailbox listed. */
  ghost predicate ActsListed(start: State, run: seq<Event>)
    requires Exec(start, run).Some?
    decreases |run|
  {
    run == [] ||
      var front, e := run[..|run| - 1], run[|run| - 1];
      ActsListed(start, front) && (e.Handle? || e.Fetch? || e.Delete? ==> Listed(start, front))
  }

  /** A worker that lists the mailbox after every arrival before anything else never goes out of range. */
  lemma {:induction false} ListedNeverPanics(start: State, run: seq<Event>)
    requires Start(start) && Exec(start, run).Some? && AllInOrder(start, run) && ActsListed(start, run)
    ensures !Exec(start, run).value.panicked
  {
    if run != [] {
      var front, e := run[..|run| - 1], run[|run| - 1];
      ListedNeverPanics(start, front);
      RunKeeps(start, front);
      if e.Handle? || e.Fetch? || e.Delete? {
        ListedNoneLate(start, front);
        PanicStep(Exec(start, front).value, e);
        NeverBeyond(Exec(start, front).value, e);
      }
    }
  }

  lemma NeverBeyond(s: State, e: Event)
    requires Inv(s) && Enabled(s, e) && InOrder(s, e) && s.late == 0 && (e.Handle? || e.Fetch? || e.Delete?)
    ensures !Apply(s, e).panicked
  {
    PanicStep(s, e);
    AfterLength(s.view, s.pending);
    if e.Delete? {
      NoneBeyond(s.server, e.nums);
    }
  }
}
