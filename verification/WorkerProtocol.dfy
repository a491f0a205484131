/**
 The request/response protocol between the user interface thread and a mail
 worker (worker/types/worker.go): two bounded queues, and callbacks keyed by the
 id of the message that is being answered.

 The first half gives each operation as a function on the worker's fields and the
 class that carries them out.  The second half runs the interface thread and the
 worker side by side, with every operation cut at the points where the other
 thread can act, and proves what the callbacks get to see in every run.
 */
module WorkerProtocol {
  import opened Collections

  /** The capacity given to both channels. */
  const CAPACITY: nat := 50

  /** What a message says.  Only Done matters to the protocol itself. */
  datatype Body = Done | Failed | Unsupported | Data(tag: int)

  datatype Message = Message(id: int, inResponseTo: Option<int>, body: Body)

  /** A callback is a closure; here it is named, and its invocations are logged. */
  type Callback = int

  datatype Call = Call(cb: Callback, msg: Message)

  /** The fields of a Worker, the package's last id, and the calls made so far. */
  datatype Fields = Fields(
    lastId: int,
    actions: seq<Message>,
    messages: seq<Message>,
    actionCallbacks: map<int, Callback>,
    messageCallbacks: map<int, Callback>,
    calls: seq<Call>)

  function Register(callbacks: map<int, Callback>, id: int, cb: Option<Callback>): map<int, Callback> {
    if cb.Some? then callbacks[id := cb.value] else callbacks
  }

  /** The calls that handing msg to a table of callbacks makes: at most one. */
  function CallsFor(callbacks: map<int, Callback>, msg: Message): seq<Call> {
    if msg.inResponseTo.Some? && msg.inResponseTo.value in callbacks
    then [Call(callbacks[msg.inResponseTo.value], msg)]
    else []
  }

  /** Done retires the callback it was delivered to. */
  function Retire(callbacks: map<int, Callback>, msg: Message): map<int, Callback> {
    if msg.inResponseTo.Some? && msg.body.Done?
    then callbacks - {msg.inResponseTo.value}
    else callbacks
  }

  class Worker {
    var lastId: int
    var actions: seq<Message>
    var messages: seq<Message>
    var actionCallbacks: map<int, Callback>
    var messageCallbacks: map<int, Callback>
    var calls: seq<Call>

    constructor ()
      ensures View() == Fields(1, [], [], map[], map[], [])
    {
      lastId := 1;
      actions, messages, calls := [], [], [];
      actionCallbacks, messageCallbacks := map[], map[];
    }

    function View(): Fields
      reads this
    {
      Fields(lastId, actions, messages, actionCallbacks, messageCallbacks, calls)
    }

    method SetId() returns (id: int)
      modifies this`lastId
      ensures id == lastId == old(lastId) + 1
    {
      lastId := lastId + 1;
      id := lastId;
    }

    method PostAction(inResponseTo: Option<int>, body: Body, cb: Option<Callback>) returns (id: int)
      modifies this
      ensures id == old(lastId) + 1
      ensures View() == old(View()).(
        lastId := id,
        actions := old(actions) + [Message(id, inResponseTo, body)],
        actionCallbacks := Register(old(actionCallbacks), id, cb))
    {
      id := SetId();
      actions := actions + [Message(id, inResponseTo, body)];
      if cb.Some? {
        actionCallbacks := actionCallbacks[id := cb.value];
      }
    }

    method PostMessage(inResponseTo: Option<int>, body: Body, cb: Option<Callback>) returns (id: int)
      modifies this
      ensures id == old(lastId) + 1
      ensures View() == old(View()).(
        lastId := id,
        messages := old(messages) + [Message(id, inResponseTo, body)],
        messageCallbacks := Register(old(messageCallbacks), id, cb))
    {
      id := SetId();
      messages := messages + [Message(id, inResponseTo, body)];
      if cb.Some? {
        messageCallbacks := messageCallbacks[id := cb.value];
      }
    }

    method ProcessMessage(msg: Message) returns (r: Message)
      modifies this`actionCallbacks, this`calls
      ensures r == msg
      ensures calls == old(calls) + CallsFor(old(actionCallbacks), msg)
      ensures actionCallbacks == Retire(old(actionCallbacks), msg)
    {
      if msg.inResponseTo.Some? {
        if msg.inResponseTo.value in actionCallbacks {
          calls := calls + [Call(actionCallbacks[msg.inResponseTo.value], msg)];
          if msg.body.Done? {
            actionCallbacks := actionCallbacks - {msg.inResponseTo.value};
          }
        }
      }
      assert msg.inResponseTo.Some? && msg.inResponseTo.value !in old(actionCallbacks) ==>
          old(actionCallbacks) - {msg.inResponseTo.value} == old(actionCallbacks);
      r := msg;
    }

    method ProcessAction(msg: Message) returns (r: Message)
      modifies this`messageCallbacks, this`calls
      ensures r == msg
      ensures calls == old(calls) + CallsFor(old(messageCallbacks), msg)
      ensures messageCallbacks == Retire(old(messageCallbacks), msg)
    {
      if msg.inResponseTo.Some? {
        if msg.inResponseTo.value in messageCallbacks {
          calls := calls + [Call(messageCallbacks[msg.inResponseTo.value], msg)];
          if msg.body.Done? {
            messageCallbacks := messageCallbacks - {msg.inResponseTo.value};
          }
        }
      }
      assert msg.inResponseTo.Some? && msg.inResponseTo.value !in old(messageCallbacks) ==>
          old(messageCallbacks) - {msg.inResponseTo.value} == old(messageCallbacks);
      r := msg;
    }
  }

  // ---------------------------------------------------------------------------
  // The two threads, interleaved
  // ---------------------------------------------------------------------------

  /**
   Where the interface thread stands inside PostAction: its action has an id and waits for
   room in the queue, or is in the queue while its callback is not yet in the table.
   */
  datatype Posting = Drawn(id: int) | Sent(id: int, cb: Option<Callback>)

  /**
   The worker's fields, where the interface thread stands (inside PostAction,
   inside a callback, or both when a callback posts), the ids the worker's threads have
   drawn for messages not yet in the queue, which actions the worker may still answer,
   and three histories: the callback each action was posted with,
   every message posted, and every message taken out of the queue.
   */
  datatype State = State(
    w: Fields,
    posting: Option<Posting>,
    running: Option<Message>,
    drawn: set<int>,
    open: set<int>,
    posted: seq<Message>,
    taken: seq<Message>,
    registered: map<int, Option<Callback>>)

  const INITIAL := State(Fields(1, [], [], map[], map[], []), None, None, {}, {}, [], [], map[])

  datatype Event =
    | UiDraw(id: int)                               // PostAction up to the channel send
    | UiSend(body: Body, cb: Option<Callback>)      // the send
    | UiRegister                                    // the rest of PostAction
    | UiTake                                        // ProcessMessage up to the callback
    | UiReturn                                      // the rest of ProcessMessage
    | WorkerTake                                    // the worker receives an action
    | WorkerDraw(id: int)                           // PostMessage up to the channel send
    | WorkerPost(id: int, to: Option<int>, what: Body)   // the send

  /**
   Ids come from one counter shared by all workers, so an id drawn may skip some.  An id
   may be drawn long before its message gets room in the queue, and by then others may
   have drawn and sent higher ones.  The worker answers only actions it has received and
   not yet answered with Done.
   */
  predicate Enabled(s: State, e: Event) {
    match e
    case UiDraw(id) => s.posting.None? && id > s.w.lastId
    case UiSend(_, _) => s.posting.Some? && s.posting.value.Drawn? && |s.w.actions| < CAPACITY
    case UiRegister => s.posting.Some? && s.posting.value.Sent?
    case UiTake => s.posting.None? && s.running.None? && |s.w.messages| > 0
    case UiReturn => s.posting.None? && s.running.Some?
    case WorkerTake => |s.w.actions| > 0
    case WorkerDraw(id) => id > s.w.lastId
    case WorkerPost(id, to, _) =>
      |s.w.messages| < CAPACITY && id in s.drawn && (to.Some? ==> to.value in s.open)
  }

  function Apply(s: State, e: Event): State
    requires Enabled(s, e)
  {
    match e
    case UiDraw(id) => s.(w := s.w.(lastId := id), posting := Some(Drawn(id)))
    case UiSend(body, cb) =>
      var id := s.posting.value.id;
      s.(w := s.w.(actions := s.w.actions + [Message(id, None, body)]),
         posting := Some(Sent(id, cb)),
         registered := s.registered[id := cb])
    case UiRegister =>
      s.(w := s.w.(actionCallbacks := Register(s.w.actionCallbacks, s.posting.value.id, s.posting.value.cb)),
         posting := None)
    case UiTake =>
      var m := s.w.messages[0];
      var c := CallsFor(s.w.actionCallbacks, m);
      s.(w := s.w.(messages := s.w.messages[1..], calls := s.w.calls + c),
         taken := s.taken + [m],
         running := if c == [] then None else Some(m))
    case UiReturn =>
      s.(w := s.w.(actionCallbacks := Retire(s.w.actionCallbacks, s.running.value)), running := None)
    case WorkerTake =>
      s.(w := s.w.(actions := s.w.actions[1..]), open := s.open + {s.w.actions[0].id})
    case WorkerDraw(id) => s.(w := s.w.(lastId := id), drawn := s.drawn + {id})
    case WorkerPost(id, to, what) =>
      var m := Message(id, to, what);
      s.(w := s.w.(messages := s.w.messages + [m]),
         drawn := s.drawn - {id},
         posted := s.posted + [m],
         open := if to.Some? && what.Done? then s.open - {to.value} else s.open)
  }

  /** The state after a run, or None if some event was not possible. */
  function Exec(run: seq<Event>): Option<State> {
    if run == [] then Some(INITIAL)
    else
      var before := Exec(run[..|run| - 1]);
      if before.Some? && Enabled(before.value, run[|run| - 1])
      then Some(Apply(before.value, run[|run| - 1]))
      else None
  }

  // What the protocol is for: the reference the runs are held against.

  /** The calls that delivering msgs one by one should make, given who posted what. */
  function Expected(msgs: seq<Message>, registered: map<int, Option<Callback>>): seq<Call> {
    if msgs == [] then []
    else Expected(msgs[..|msgs| - 1], registered) + ExpectedOne(msgs[|msgs| - 1], registered)
  }

  function ExpectedOne(m: Message, registered: map<int, Option<Callback>>): seq<Call> {
    if m.inResponseTo.Some? && m.inResponseTo.value in registered && registered[m.inResponseTo.value].Some?
    then [Call(registered[m.inResponseTo.value].value, m)]
    else []
  }

  predicate IsDone(m: Message, a: int) {
    m.inResponseTo == Some(a) && m.body.Done?
  }

  ghost predicate DoneIn(msgs: seq<Message>, a: int) {
    exists i :: 0 <= i < |msgs| && IsDone(msgs[i], a)
  }

  /** Nothing answers an action after its Done. */
  ghost predicate DoneLast(msgs: seq<Message>) {
    forall i, j, a :: 0 <= i < j < |msgs| && IsDone(msgs[i], a) ==> msgs[j].inResponseTo != Some(a)
  }

  // The invariant, one aspect at a time.

  ghost predicate Fifo(s: State) {
    s.posted == s.taken + s.w.messages
  }

  ghost predicate KnownIds(s: State) {
    && (forall a :: a in s.registered ==> a <= s.w.lastId)
    && (forall a :: a in s.open ==> a in s.registered)
    && (forall i :: 0 <= i < |s.w.actions| ==> s.w.actions[i].id in s.registered)
    && (forall i :: 0 <= i < |s.posted| && s.posted[i].inResponseTo.Some? ==> s.posted[i].inResponseTo.value in s.registered)
    && (s.posting.Some? ==>
          match s.posting.value
          case Drawn(id) => id <= s.w.lastId && id !in s.registered
          case Sent(id, cb) => id in s.registered && s.registered[id] == cb)
    && (forall i, j :: 0 <= i < j < |s.w.actions| ==> s.w.actions[i].id != s.w.actions[j].id)
    && (forall i :: 0 <= i < |s.w.actions| ==> s.w.actions[i].id !in s.open)
  }

  /** After Done the worker is finished with the action: nothing more can come. */
  ghost predicate DoneClosed(s: State) {
    && DoneLast(s.posted)
    && (forall a :: DoneIn(s.posted, a) ==> a !in s.open)
    && (forall a, i :: DoneIn(s.posted, a) && 0 <= i < |s.w.actions| ==> s.w.actions[i].id != a)
  }

  /** An action's callback is in the table from its registration until its Done has been handled. */
  ghost predicate TableRight(s: State) {
    && (forall a :: a in s.w.actionCallbacks ==>
          a in s.registered && s.registered[a] == Some(s.w.actionCallbacks[a]))
    && (forall a :: a in s.registered && s.registered[a].Some? ==>
          a in s.w.actionCallbacks || (s.posting.Some? && s.posting.value.Sent? && s.posting.value.id == a) || DoneIn(s.taken, a))
    && (s.running.Some? ==> |s.taken| > 0 && s.taken[|s.taken| - 1] == s.running.value)
  }

  ghost predicate Inv(s: State) {
    && Fifo(s)
    && KnownIds(s)
    && DoneClosed(s)
    && TableRight(s)
    && s.w.calls == Expected(s.taken, s.registered)
  }

  lemma {:induction false} ExpectedStable(msgs: seq<Message>, r: map<int, Option<Callback>>, id: int, cb: Option<Callback>)
    requires id !in r
    requires forall i :: 0 <= i < |msgs| && msgs[i].inResponseTo.Some? ==> msgs[i].inResponseTo.value in r
    ensures Expected(msgs, r[id := cb]) == Expected(msgs, r)
  {
    if msgs != [] {
      ExpectedStable(msgs[..|msgs| - 1], r, id, cb);
    }
  }

  lemma DoneInAppend(msgs: seq<Message>, m: Message)
    ensures forall a :: DoneIn(msgs + [m], a) <==> DoneIn(msgs, a) || IsDone(m, a)
  {
    forall a ensures DoneIn(msgs + [m], a) <==> DoneIn(msgs, a) || IsDone(m, a) {
      if DoneIn(msgs, a) {
        var i :| 0 <= i < |msgs| && IsDone(msgs[i], a);
        assert (msgs + [m])[i] == msgs[i];
      }
      if IsDone(m, a) {
        assert (msgs + [m])[|msgs|] == m;
      }
    }
  }

  /** The heart of the matter: what is delivered is what should be. */
  lemma TakeDelivers(s: State)
    requires Inv(s) && Enabled(s, UiTake)
    ensures CallsFor(s.w.actionCallbacks, s.w.messages[0]) == ExpectedOne(s.w.messages[0], s.registered)
  {
    var m := s.w.messages[0];
    assert s.posted[|s.taken|] == m;
    if m.inResponseTo.Some? {
      var a := m.inResponseTo.value;
      forall i | 0 <= i < |s.taken| ensures !IsDone(s.taken[i], a) {
        assert s.posted[i] == s.taken[i];
      }
    }
  }

  lemma TakeKeepsTable(s: State)
    requires Inv(s) && Enabled(s, UiTake)
    ensures TableRight(Apply(s, UiTake))
  {
    DoneInAppend(s.taken, s.w.messages[0]);
  }

  lemma TakeKeepsCalls(s: State)
    requires Inv(s) && Enabled(s, UiTake)
    ensures var t := Apply(s, UiTake);
      Fifo(t) && t.w.calls == Expected(t.taken, t.registered)
  {
    var m, t := s.w.messages[0], Apply(s, UiTake);
    TakeDelivers(s);
    assert t.taken[..|t.taken| - 1] == s.taken;
    assert s.w.messages == [m] + s.w.messages[1..];
    Assoc(s.taken, [m], s.w.messages[1..]);
  }

  lemma TakeKeeps(s: State)
    requires Inv(s) && Enabled(s, UiTake)
    ensures Inv(Apply(s, UiTake))
  {
    TakeKeepsTable(s);
    TakeKeepsCalls(s);
    var t := Apply(s, UiTake);
    assert KnownIds(t) && DoneClosed(t);
  }

  lemma ReturnKeeps(s: State)
    requires Inv(s) && Enabled(s, UiReturn)
    ensures Inv(Apply(s, UiReturn))
  {
    var m := s.running.value;
    if m.inResponseTo.Some? && m.body.Done? {
      assert IsDone(s.taken[|s.taken| - 1], m.inResponseTo.value);
    }
  }

  lemma SendKeeps(s: State, e: Event)
    requires Inv(s) && e.UiSend? && Enabled(s, e)
    ensures Inv(Apply(s, e))
  {
    var t, id := Apply(s, e), s.posting.value.id;
    forall i | 0 <= i < |s.taken| && s.taken[i].inResponseTo.Some?
      ensures s.taken[i].inResponseTo.value in s.registered
    {
      assert s.posted[i] == s.taken[i];
    }
    ExpectedStable(s.taken, s.registered, id, e.cb);
    forall a | DoneIn(s.posted, a) ensures a in s.registered {
      var i :| 0 <= i < |s.posted| && IsDone(s.posted[i], a);
    }
  }

  lemma WorkerPostKeepsDone(s: State, e: Event)
    requires Inv(s) && e.WorkerPost? && Enabled(s, e)
    ensures DoneClosed(Apply(s, e))
  {
    var m := Message(e.id, e.to, e.what);
    var t := Apply(s, e);
    DoneInAppend(s.posted, m);
    forall i, j, a | 0 <= i < j < |t.posted| && IsDone(t.posted[i], a)
      ensures t.posted[j].inResponseTo != Some(a)
    {
      assert IsDone(s.posted[i], a);
      assert DoneIn(s.posted, a);
    }
    forall a, i | DoneIn(t.posted, a) && 0 <= i < |t.w.actions| ensures t.w.actions[i].id != a {
      if IsDone(m, a) {
        assert a in s.open;
      }
    }
  }

  lemma WorkerPostKeeps(s: State, e: Event)
    requires Inv(s) && e.WorkerPost? && Enabled(s, e)
    ensures Inv(Apply(s, e))
  {
    WorkerPostKeepsDone(s, e);
    var m, t := Message(e.id, e.to, e.what), Apply(s, e);
    Assoc(s.taken, s.w.messages, [m]);
    assert t.posted == s.posted + [m];
    forall i | 0 <= i < |t.posted| && t.posted[i].inResponseTo.Some?
      ensures t.posted[i].inResponseTo.value in t.registered
    {
      var a: int := t.posted[i].inResponseTo.value;
      if i < |s.posted| {
        assert t.posted[i] == s.posted[i];
      } else {
        assert a in s.open;
      }
      assert a in s.registered;
    }
    assert Fifo(t) && KnownIds(t) && TableRight(t);
  }

  lemma RegisterKeeps(s: State)
    requires Inv(s) && Enabled(s, UiRegister)
    ensures Inv(Apply(s, UiRegister))
  {
  }

  lemma WorkerTakeKeeps(s: State)
    requires Inv(s) && Enabled(s, WorkerTake)
    ensures Inv(Apply(s, WorkerTake))
  {
    assert s.w.actions == [s.w.actions[0]] + s.w.actions[1..];
  }

  lemma DrawKeeps(s: State, e: Event)
    requires Inv(s) && (e.UiDraw? || e.WorkerDraw?) && Enabled(s, e)
    ensures Inv(Apply(s, e))
  {
  }

  lemma {:induction false} RunKeeps(run: seq<Event>)
    requires Exec(run).Some?
    ensures Inv(Exec(run).value)
  {
    if run != [] {
      var s, e := Exec(run[..|run| - 1]).value, run[|run| - 1];
      RunKeeps(run[..|run| - 1]);
      match e
      case UiDraw(_) => DrawKeeps(s, e);
      case UiSend(_, _) => SendKeeps(s, e);
      case UiRegister => RegisterKeeps(s);
      case UiTake => TakeKeeps(s);
      case UiReturn => ReturnKeeps(s);
      case WorkerTake => WorkerTakeKeeps(s);
      case WorkerDraw(_) => DrawKeeps(s, e);
      case WorkerPost(_, _, _) => WorkerPostKeeps(s, e);
    }
  }

  /**
   Delivery.  In every interleaving the callbacks have been called with exactly the
   responses taken from the queue so far, each response going to the callback its
   own action was posted with, in the order they were posted; the queue holds the
   rest; and nothing follows an action's Done.
   */
  lemma Delivery(run: seq<Event>)
    requires Exec(run).Some?
    ensures var s := Exec(run).value;
      && s.posted == s.taken + s.w.messages
      && s.w.calls == Expected(s.taken, s.registered)
      && DoneLast(s.posted)
  {
    RunKeeps(run);
  }

  /** One action's view: its callback's calls are its responses, in order, and no others. */
  lemma {:induction false} PerAction(msgs: seq<Message>, r: map<int, Option<Callback>>, a: int)
    ensures var answers := Filter(msgs, (m: Message) => m.inResponseTo == Some(a));
      Filter(Expected(msgs, r), (c: Call) => c.msg.inResponseTo == Some(a)) ==
      if a in r && r[a].Some? then Map(answers, (m: Message) => Call(r[a].value, m)) else []
  {
    var isAnswer := (m: Message) => m.inResponseTo == Some(a);
    var isCall := (c: Call) => c.msg.inResponseTo == Some(a);
    if msgs != [] {
      var n := |msgs| - 1;
      var m := msgs[n];
      PerAction(msgs[..n], r, a);
      assert msgs == msgs[..n] + [m];
      FilterAppend(msgs[..n], [m], isAnswer);
      FilterAppend(Expected(msgs[..n], r), ExpectedOne(m, r), isCall);
      assert Filter([m], isAnswer) == if isAnswer(m) then [m] else [];
      assert Filter(ExpectedOne(m, r), isCall) ==
        if a in r && r[a].Some? && isAnswer(m) then [Call(r[a].value, m)] else [];
      if a in r && r[a].Some? {
        MapAppend(Filter(msgs[..n], isAnswer), Filter([m], isAnswer), (m: Message) => Call(r[a].value, m));
      }
    }
  }

  /**
   Nothing is lost: once the queue has been drained and the interface thread is
   idle, every callback has seen every response the worker posted for its action.
   */
  lemma DrainedIsComplete(run: seq<Event>, a: int)
    requires Exec(run).Some?
    requires Exec(run).value.w.messages == []
    ensures var s := Exec(run).value;
      var answers := Filter(s.posted, (m: Message) => m.inResponseTo == Some(a));
      Filter(s.w.calls, (c: Call) => c.msg.inResponseTo == Some(a)) ==
      if a in s.registered && s.registered[a].Some?
      then Map(answers, (m: Message) => Call(s.registered[a].value, m)) else []
  {
    RunKeeps(run);
    var s := Exec(run).value;
    assert s.posted == s.taken;
    PerAction(s.taken, s.registered, a);
  }

  /** A callback stays in the table exactly as long as its action has not been answered with Done. */
  lemma TableTracksOpenActions(run: seq<Event>, a: int)
    requires Exec(run).Some?
    requires Exec(run).value.posting.None? && Exec(run).value.running.None?
    ensures var s := Exec(run).value;
      a in s.w.actionCallbacks <==> a in s.registered && s.registered[a].Some? && !DoneIn(s.taken, a)
  {
    RunKeeps(run);
    RetiredStaysOut(run, a);
  }

  /** An answered action's callback is in the table only while that very answer is being handled. */
  ghost predicate Retired(s: State, a: int) {
    && (DoneIn(s.taken, a) && a in s.w.actionCallbacks ==> s.running.Some? && IsDone(s.running.value, a))
    && (s.posting.Some? && s.posting.value.Sent? && s.posting.value.id == a ==> !DoneIn(s.taken, a))
  }

  lemma RetiredStep(s: State, e: Event, a: int)
    requires Inv(s) && Retired(s, a) && Enabled(s, e)
    ensures Retired(Apply(s, e), a)
  {
    match e
    case UiDraw(_) =>
    case UiSend(_, _) =>
      var id := s.posting.value.id;
      forall i | 0 <= i < |s.taken| ensures !IsDone(s.taken[i], id) {
        assert s.posted[i] == s.taken[i];
      }
    case UiTake =>
      DoneInAppend(s.taken, s.w.messages[0]);
    case UiRegister =>
    case UiReturn =>
    case WorkerTake =>
    case WorkerDraw(_) =>
    case WorkerPost(_, _, _) =>
  }

  lemma {:induction false} RetiredStaysOut(run: seq<Event>, a: int)
    requires Exec(run).Some?
    ensures Retired(Exec(run).value, a)
  {
    if run != [] {
      RetiredStaysOut(run[..|run| - 1], a);
      RunKeeps(run[..|run| - 1]);
      RetiredStep(Exec(run[..|run| - 1]).value, run[|run| - 1], a);
    }
  }

  // Standing still

  /** A step of the interface thread. */
  predicate IsUi(e: Event) {
    e.UiDraw? || e.UiSend? || e.UiRegister? || e.UiTake? || e.UiReturn?
  }

  /** Some thread of the worker's is inside PostMessage. */
  ghost predicate PostsNow(s: State) {
    exists id :: id in s.drawn
  }

  /** Both queues are full, and both sides wait to send. */
  ghost predicate Deadlocked(s: State) {
    && s.posting.Some? && s.posting.value.Drawn? && |s.w.actions| >= CAPACITY
    && PostsNow(s) && |s.w.messages| >= CAPACITY
  }

  /**
   With the worker inside PostMessage, where it takes no action, neither side has a step
   exactly if both queues are full and the interface thread waits to send too.
   */
  lemma DeadlockIff(s: State)
    ensures Deadlocked(s) <==> PostsNow(s) && forall e :: IsUi(e) || e.WorkerPost? ==> !Enabled(s, e)
  {
    if PostsNow(s) && forall e :: IsUi(e) || e.WorkerPost? ==> !Enabled(s, e) {
      var id :| id in s.drawn;
      assert !Enabled(s, UiDraw(s.w.lastId + 1));
      assert !Enabled(s, UiRegister);
      assert !Enabled(s, UiSend(Done, None));
      assert !Enabled(s, WorkerPost(id, None, Done));
    }
  }

  lemma ExecSnoc(run: seq<Event>, e: Event)
    requires Exec(run).Some? && Enabled(Exec(run).value, e)
    ensures Exec(run + [e]) == Some(Apply(Exec(run).value, e))
  {
    assert (run + [e])[..|run|] == run;
  }

  /** The interface thread and the worker's threads are in no send. */
  predicate Quiet(s: State) {
    s.posting.None? && s.running.None? && s.drawn == {}
  }

  lemma {:induction false} FillMessages(n: nat) returns (run: seq<Event>)
    requires n <= CAPACITY
    ensures Exec(run).Some? && Quiet(Exec(run).value)
    ensures |Exec(run).value.w.messages| == n && Exec(run).value.w.actions == []
  {
    if n == 0 {
      run := [];
    } else {
      run := FillMessages(n - 1);
      var id := Exec(run).value.w.lastId + 1;
      ExecSnoc(run, WorkerDraw(id));
      run := run + [WorkerDraw(id)];
      ExecSnoc(run, WorkerPost(id, None, Data(0)));
      run := run + [WorkerPost(id, None, Data(0))];
    }
  }

  lemma {:induction false} FillActions(n: nat) returns (run: seq<Event>)
    requires n <= CAPACITY
    ensures Exec(run).Some? && Quiet(Exec(run).value)
    ensures |Exec(run).value.w.messages| == CAPACITY && |Exec(run).value.w.actions| == n
  {
    if n == 0 {
      run := FillMessages(CAPACITY);
    } else {
      run := FillActions(n - 1);
      var id := Exec(run).value.w.lastId + 1;
      ExecSnoc(run, UiDraw(id));
      run := run + [UiDraw(id)];
      ExecSnoc(run, UiSend(Data(0), None));
      run := run + [UiSend(Data(0), None)];
      ExecSnoc(run, UiRegister);
      run := run + [UiRegister];
    }
  }

  /** It can come to that. */
  lemma DeadlockReachable() returns (run: seq<Event>)
    ensures Exec(run).Some? && Deadlocked(Exec(run).value)
  {
    run := FillActions(CAPACITY);
    var id := Exec(run).value.w.lastId + 1;
    ExecSnoc(run, WorkerDraw(id));
    run := run + [WorkerDraw(id)];
    assert id in Exec(run).value.drawn;
    ExecSnoc(run, UiDraw(id + 1));
    run := run + [UiDraw(id + 1)];
  }
}
