/**
 Requests for full messages and the callbacks waiting for them (FetchFull and the
 FullMessage case of Update in lib/msgstore.go).
 */
module StoreFetch {
  import opened Collections

  type Uid = nat

  /** One registration of a callback: the call of FetchFull it came with. */
  type Callback = nat

  /**
   pending: uids asked for whose message has not come.  requests, fired and arrivals
   are histories: the uid lists sent to the worker, the callbacks run, and the
   messages that came for a pending uid.
   */
  datatype Fetches = Fetches(
    pending: set<Uid>, callbacks: map<Uid, seq<Callback>>,
    requests: seq<seq<Uid>>, fired: seq<(Uid, Callback)>, arrivals: seq<Uid>)

  const NONE := Fetches({}, map[], [], [], [])

  function AddCallback(callbacks: map<Uid, seq<Callback>>, uid: Uid, cb: Option<Callback>): map<Uid, seq<Callback>> {
    if cb == None then callbacks
    else if uid in callbacks then callbacks[uid := callbacks[uid] + [cb.value]]
    else callbacks[uid := [cb.value]]
  }

  /** The loop over the uids asked for: what becomes pending and what is sent. */
  function Collect(f: Fetches, uids: seq<Uid>, cb: Option<Callback>): (Fetches, seq<Uid>) {
    if uids == [] then (f, [])
    else
      var (g, toFetch) := Collect(f, uids[..|uids| - 1], cb);
      var uid := uids[|uids| - 1];
      if uid in g.pending then (g, toFetch)
      else (g.(pending := g.pending + {uid}, callbacks := AddCallback(g.callbacks, uid, cb)), toFetch + [uid])
  }

  function FetchFull(f: Fetches, uids: seq<Uid>, cb: Option<Callback>): Fetches {
    var (g, toFetch) := Collect(f, uids, cb);
    if toFetch == [] then g else g.(requests := g.requests + [toFetch])
  }

  function Fire(uid: Uid, cbs: seq<Callback>): seq<(Uid, Callback)> {
    Map(cbs, (cb: Callback) => (uid, cb))
  }

  function FullMessage(f: Fetches, uid: Uid): Fetches {
    if uid !in f.pending then f
    else if uid in f.callbacks then
      f.(pending := f.pending - {uid}, callbacks := f.callbacks - {uid},
         fired := f.fired + Fire(uid, f.callbacks[uid]), arrivals := f.arrivals + [uid])
    else f.(pending := f.pending - {uid}, arrivals := f.arrivals + [uid])
  }

  /**
   Headers are asked for in the same way; but only information with an envelope answers,
   and the callbacks, once run, are kept for the next answer.
   */
  function HeaderInfo(f: Fetches, uid: Uid, complete: bool): Fetches {
    if !complete || uid !in f.pending then f
    else f.(pending := f.pending - {uid}, arrivals := f.arrivals + [uid],
            fired := if uid in f.callbacks then f.fired + Fire(uid, f.callbacks[uid]) else f.fired)
  }

  /** The Error case of FetchFull's own callback: the callbacks go, the uids stay pending. */
  function FetchError(f: Fetches, toFetch: seq<Uid>): Fetches {
    f.(callbacks := f.callbacks - ToSet(toFetch))
  }

  /** What one call sends is new, and is everything asked for that was not yet pending. */
  lemma {:induction false} CollectNew(f: Fetches, uids: seq<Uid>, cb: Option<Callback>)
    ensures var (g, toFetch) := Collect(f, uids, cb);
      && Distinct(toFetch)
      && ToSet(toFetch) == ToSet(uids) - f.pending
      && g.pending == f.pending + ToSet(uids)
      && g.requests == f.requests && g.fired == f.fired && g.arrivals == f.arrivals
  {
    if uids != [] {
      var n := |uids| - 1;
      CollectNew(f, uids[..n], cb);
      assert uids == uids[..n] + [uids[n]];
      var (g, toFetch) := Collect(f, uids[..n], cb);
      assert ToSet(uids) == ToSet(uids[..n]) + {uids[n]};
      if uids[n] !in g.pending {
        assert uids[n] !in ToSet(toFetch);
        assert ToSet(toFetch + [uids[n]]) == ToSet(toFetch) + {uids[n]};
      }
    }
  }

  /** Every uid with a callback is pending, and has exactly one. */
  ghost predicate OneEach(f: Fetches) {
    forall u :: u in f.callbacks ==> u in f.pending && |f.callbacks[u]| == 1
  }

  ghost predicate CallbacksBefore(f: Fetches, calls: nat) {
    && (forall u :: u in f.callbacks ==> forall cb :: cb in f.callbacks[u] ==> cb < calls)
    && (forall i :: 0 <= i < |f.fired| ==> f.fired[i].1 < calls)
  }

  ghost predicate NotFiredYet(f: Fetches) {
    forall u, cb :: u in f.callbacks && cb in f.callbacks[u] ==> (u, cb) !in f.fired
  }

  /** How often a uid has been asked for. */
  function Asked(requests: seq<seq<Uid>>, u: Uid): nat {
    if requests == [] then 0
    else Asked(requests[..|requests| - 1], u) + multiset(requests[|requests| - 1])[u]
  }

  /** Each request of a uid but the last has been answered before the next was made. */
  ghost predicate Balanced(f: Fetches) {
    forall u: Uid :: Asked(f.requests, u) == multiset(f.arrivals)[u] + (if u in f.pending then 1 else 0)
  }

  ghost predicate Inv(f: Fetches, calls: nat) {
    && OneEach(f) && CallbacksBefore(f, calls) && NotFiredYet(f) && Distinct(f.fired) && Balanced(f)
  }

  /** The branch that appends to an existing list of callbacks is never taken. */
  lemma {:induction false} CollectKeeps(f: Fetches, uids: seq<Uid>, cb: Option<Callback>, calls: nat)
    requires OneEach(f) && CallbacksBefore(f, calls) && NotFiredYet(f) && (cb.Some? ==> cb.value == calls)
    ensures var g := Collect(f, uids, cb).0;
      && OneEach(g) && CallbacksBefore(g, calls + 1) && NotFiredYet(g)
    ensures forall u :: u in Collect(f, uids, cb).0.callbacks && u !in f.callbacks ==>
      cb.Some? && Collect(f, uids, cb).0.callbacks[u] == [cb.value]
  {
    if uids != [] {
      CollectKeeps(f, uids[..|uids| - 1], cb, calls);
      CollectNew(f, uids[..|uids| - 1], cb);
      assert cb.Some? ==> forall i :: 0 <= i < |f.fired| ==> f.fired[i].1 != cb.value;
    }
  }

  lemma FetchKeeps(f: Fetches, uids: seq<Uid>, cb: Option<Callback>, calls: nat)
    requires Inv(f, calls) && (cb.Some? ==> cb.value == calls)
    ensures Inv(FetchFull(f, uids, cb), calls + 1)
  {
    CollectKeeps(f, uids, cb, calls);
    CollectNew(f, uids, cb);
    var toFetch := Collect(f, uids, cb).1;
    var g := FetchFull(f, uids, cb);
    forall u: Uid ensures Asked(g.requests, u) == multiset(g.arrivals)[u] + (if u in g.pending then 1 else 0) {
      DistinctCount(toFetch, u);
      assert Asked(f.requests, u) == multiset(f.arrivals)[u] + (if u in f.pending then 1 else 0);
      assert u in toFetch <==> u in ToSet(toFetch);
      assert u in uids <==> u in ToSet(uids);
      if toFetch != [] {
        assert g.requests[..|g.requests| - 1] == f.requests;
      }
    }
  }

  lemma FullMessageKeeps(f: Fetches, uid: Uid, calls: nat)
    requires Inv(f, calls)
    ensures Inv(FullMessage(f, uid), calls)
  {
    var g := FullMessage(f, uid);
    if uid in f.pending {
      if uid in f.callbacks {
        assert Fire(uid, f.callbacks[uid]) == [(uid, f.callbacks[uid][0])];
        assert f.callbacks[uid][0] in f.callbacks[uid];
      }
      forall u: Uid ensures Asked(g.requests, u) == multiset(g.arrivals)[u] + (if u in g.pending then 1 else 0) {
        assert Asked(f.requests, u) == multiset(f.arrivals)[u] + (if u in f.pending then 1 else 0);
      }
    }
  }

  // Runs

  datatype Event =
    | Fetch(uids: seq<Uid>, withCallback: bool)
    | Full(uid: Uid)
    | Error(request: nat)

  predicate Enabled(f: Fetches, e: Event) {
    e.Error? ==> e.request < |f.requests|
  }

  /** Calls of FetchFull are numbered, and the number stands for the callback it brings. */
  function Apply(f: Fetches, e: Event, call: nat): Fetches
    requires Enabled(f, e)
  {
    match e
    case Fetch(uids, withCallback) => FetchFull(f, uids, if withCallback then Some(call) else None)
    case Full(uid) => FullMessage(f, uid)
    case Error(request) => FetchError(f, f.requests[request])
  }

  function Exec(run: seq<Event>): Option<Fetches> {
    if run == [] then Some(NONE)
    else
      var before := Exec(run[..|run| - 1]);
      if before.Some? && Enabled(before.value, run[|run| - 1])
      then Some(Apply(before.value, run[|run| - 1], |run| - 1))
      else None
  }

  /**
   Over every run: a uid with a callback is pending and holds exactly one; no callback
   fires twice; and each uid has been asked for exactly once more than its message came,
   if it is pending, and as often otherwise.
   */
  lemma {:induction false} RunKeeps(run: seq<Event>)
    requires Exec(run).Some?
    ensures Inv(Exec(run).value, |run|)
  {
    if run != [] {
      var f, e := Exec(run[..|run| - 1]).value, run[|run| - 1];
      RunKeeps(run[..|run| - 1]);
      match e
      case Fetch(uids, withCallback) =>
        FetchKeeps(f, uids, if withCallback then Some(|run| - 1) else None, |run| - 1);
      case Full(uid) => FullMessageKeeps(f, uid, |run| - 1);
      case Error(_) =>
        assert forall u: Uid :: Asked(f.requests, u) == multiset(f.arrivals)[u] + (if u in f.pending then 1 else 0);
    }
  }

  /** A failed fetch is never tried again: until the message itself comes, asking sends nothing. */
  lemma {:induction false} FailedStaysPending(run: seq<Event>, n: nat, uid: Uid)
    requires n <= |run| && Exec(run).Some? && Exec(run[..n]).Some?
    requires uid in Exec(run[..n]).value.pending
    requires forall i :: n <= i < |run| ==> run[i] != Full(uid)
    ensures uid in Exec(run).value.pending
    ensures Asked(Exec(run).value.requests, uid) == Asked(Exec(run[..n]).value.requests, uid)
  {
    if n == |run| {
      assert run[..n] == run;
    } else {
      var front := run[..|run| - 1];
      assert front[..n] == run[..n];
      FailedStaysPending(front, n, uid);
      var f, e := Exec(front).value, run[|run| - 1];
      if e.Fetch? {
        var cb := if e.withCallback then Some(|run| - 1) else None;
        CollectNew(f, e.uids, cb);
        var toFetch := Collect(f, e.uids, cb).1;
        assert uid !in ToSet(toFetch);
        assert uid !in multiset(toFetch);
        var g := FetchFull(f, e.uids, cb);
        if toFetch != [] {
          assert g.requests[..|g.requests| - 1] == f.requests;
        }
      }
    }
  }

  // What becomes of a callback

  /** The callbacks waiting for a uid. */
  function CallbacksOf(f: Fetches, u: Uid): seq<Callback> {
    if u in f.callbacks then f.callbacks[u] else []
  }

  /** How often callback n waits for u, and how often it has run with u's message. */
  function Held(f: Fetches, u: Uid, n: Callback): nat {
    multiset(CallbacksOf(f, u))[n]
  }

  function Runs(f: Fetches, u: Uid, n: Callback): nat {
    multiset(f.fired)[(u, n)]
  }

  lemma {:induction false} CollectCallbacks(f: Fetches, uids: seq<Uid>, cb: Option<Callback>, u: Uid)
    ensures CallbacksOf(Collect(f, uids, cb).0, u) ==
      CallbacksOf(f, u) + if cb.Some? && u in uids && u !in f.pending then [cb.value] else []
  {
    if uids != [] {
      var n := |uids| - 1;
      CollectCallbacks(f, uids[..n], cb, u);
      CollectNew(f, uids[..n], cb);
      assert uids == uids[..n] + [uids[n]];
      assert u in uids[..n] <==> u in ToSet(uids[..n]);
    }
  }

  lemma FetchHolds(f: Fetches, uids: seq<Uid>, cb: Option<Callback>, u: Uid, n: Callback)
    ensures var g := FetchFull(f, uids, cb);
      && Held(g, u, n) == Held(f, u, n) + (if cb == Some(n) && u in uids && u !in f.pending then 1 else 0)
      && Runs(g, u, n) == Runs(f, u, n)
      && (u in g.pending <==> u in f.pending || u in uids)
  {
    CollectCallbacks(f, uids, cb, u);
    CollectNew(f, uids, cb);
    assert u in uids <==> u in ToSet(uids);
  }

  lemma FireCons(uid: Uid, cb: Callback, cbs: seq<Callback>)
    ensures Fire(uid, [cb] + cbs) == [(uid, cb)] + Fire(uid, cbs)
  {
  }

  lemma {:induction false} FireCount(uid: Uid, cbs: seq<Callback>, u: Uid, n: Callback)
    ensures multiset(Fire(uid, cbs))[(u, n)] == if u == uid then multiset(cbs)[n] else 0
  {
    if cbs != [] {
      var cb, rest := cbs[0], cbs[1..];
      assert cbs == [cb] + rest;
      FireCount(uid, rest, u, n);
      FireCons(uid, cb, rest);
      CountCons((uid, cb), Fire(uid, rest), (u, n));
      CountCons(cb, rest, n);
    }
  }

  lemma CountCons<T>(x: T, s: seq<T>, y: T)
    ensures multiset([x] + s)[y] == multiset(s)[y] + if x == y then 1 else 0
  {
  }

  lemma AnswerRuns(f: Fetches, uid: Uid, u: Uid, n: Callback)
    requires u in f.callbacks ==> u in f.pending
    ensures var g := FullMessage(f, uid);
      && Held(g, u, n) == (if uid == u then 0 else Held(f, u, n))
      && Runs(g, u, n) == Runs(f, u, n) + (if uid == u then Held(f, u, n) else 0)
      && (u in g.pending <==> u in f.pending && u != uid)
  {
    FireCount(uid, CallbacksOf(f, uid), u, n);
  }

  /** Whether u has been asked for and its message has not come since. */
  predicate Awaited(run: seq<Event>, u: Uid) {
    run != [] &&
    var e := run[|run| - 1];
    if e.Fetch? && u in e.uids then true
    else if e == Full(u) then false
    else Awaited(run[..|run| - 1], u)
  }

  /** Call n asks, with a callback, for u, which is not being waited for. */
  predicate Given(run: seq<Event>, n: nat, u: Uid)
    requires n < |run|
  {
    run[n].Fetch? && run[n].withCallback && u in run[n].uids && !Awaited(run[..n], u)
  }

  /** The event is the error of a request for u. */
  predicate Fails(f: Fetches, e: Event, u: Uid) {
    e.Error? && Enabled(f, e) && u in f.requests[e.request]
  }

  datatype Fate = Waiting | Ran | Dropped

  /** What becomes, by the end of the run, of a callback given at n for u: the first answer or error decides. */
  ghost function FateOf(run: seq<Event>, n: nat, u: Uid): Fate
    requires n < |run| && Exec(run).Some?
  {
    if n == |run| - 1 then Waiting
    else
      var front, e := run[..|run| - 1], run[|run| - 1];
      var before := FateOf(front, n, u);
      if !before.Waiting? then before
      else if e == Full(u) then Ran
      else if Fails(Exec(front).value, e, u) then Dropped
      else Waiting
  }

  lemma {:induction false} PendingIsAwaited(run: seq<Event>, u: Uid)
    requires Exec(run).Some?
    ensures u in Exec(run).value.pending <==> Awaited(run, u)
  {
    if run != [] {
      var front, e := run[..|run| - 1], run[|run| - 1];
      PendingIsAwaited(front, u);
      if e.Fetch? {
        FetchHolds(Exec(front).value, e.uids, if e.withCallback then Some(|run| - 1) else None, u, 0);
      }
    }
  }

  /** One event and one callback given before it. */
  lemma StepHolds(f: Fetches, e: Event, call: nat, u: Uid, n: nat)
    requires Inv(f, call) && Enabled(f, e) && n < call
    ensures var g := Apply(f, e, call);
      && Held(g, u, n) == (if e == Full(u) || Fails(f, e, u) then 0 else Held(f, u, n))
      && Runs(g, u, n) == Runs(f, u, n) + (if e == Full(u) then Held(f, u, n) else 0)
  {
    match e
    case Fetch(uids, withCallback) => FetchHolds(f, uids, if withCallback then Some(call) else None, u, n);
    case Full(uid) => AnswerRuns(f, uid, u, n);
    case Error(_) =>
  }

  /** The callback an event brings. */
  lemma NewHolds(f: Fetches, e: Event, call: nat, u: Uid)
    requires Inv(f, call) && Enabled(f, e)
    ensures var g := Apply(f, e, call);
      && Held(g, u, call) == (if e.Fetch? && e.withCallback && u in e.uids && u !in f.pending then 1 else 0)
      && Runs(g, u, call) == 0
  {
    assert call !in CallbacksOf(f, u);
    assert (u, call) !in f.fired;
    match e
    case Fetch(uids, withCallback) => FetchHolds(f, uids, if withCallback then Some(call) else None, u, call);
    case Full(uid) => AnswerRuns(f, uid, u, call);
    case Error(_) =>
  }

  /**
   Over every run and for every callback and uid: a callback given for the uid is waiting,
   has run exactly once with its message, or was dropped by an error, as the first answer
   or error after it decides; and no other callback waits for the uid or runs with its message.
   */
  lemma {:induction false} CallbackFate(run: seq<Event>, n: nat, u: Uid)
    requires n < |run| && Exec(run).Some?
    ensures var f := Exec(run).value;
      && Held(f, u, n) == (if Given(run, n, u) && FateOf(run, n, u) == Waiting then 1 else 0)
      && Runs(f, u, n) == (if Given(run, n, u) && FateOf(run, n, u) == Ran then 1 else 0)
  {
    var front, e := run[..|run| - 1], run[|run| - 1];
    RunKeeps(front);
    if n == |run| - 1 {
      PendingIsAwaited(front, u);
      NewHolds(Exec(front).value, e, n, u);
    } else {
      CallbackFate(front, n, u);
      assert front[..n] == run[..n];
      StepHolds(Exec(front).value, e, |run| - 1, u, n);
    }
  }

  // Headers

  datatype HeaderEvent =
    | FetchHeaders(uids: seq<Uid>, withCallback: bool)
    | Info(uid: Uid, complete: bool)

  function HeaderStep(f: Fetches, e: HeaderEvent, call: nat): Fetches {
    match e
    case FetchHeaders(uids, withCallback) => FetchFull(f, uids, if withCallback then Some(call) else None)
    case Info(uid, complete) => HeaderInfo(f, uid, complete)
  }

  function ExecHeaders(run: seq<HeaderEvent>): Fetches {
    if run == [] then NONE else HeaderStep(ExecHeaders(run[..|run| - 1]), run[|run| - 1], |run| - 1)
  }

  /** Whether u's headers have been asked for and have not come since. */
  predicate HeadersAwaited(run: seq<HeaderEvent>, u: Uid) {
    run != [] &&
    var e := run[|run| - 1];
    if e.FetchHeaders? && u in e.uids then true
    else if e == Info(u, true) then false
    else HeadersAwaited(run[..|run| - 1], u)
  }

  predicate HeaderGiven(run: seq<HeaderEvent>, n: nat, u: Uid)
    requires n < |run|
  {
    run[n].FetchHeaders? && run[n].withCallback && u in run[n].uids && !HeadersAwaited(run[..n], u)
  }

  /** How many answers for u came after n while u was being waited for. */
  function AnswersAfter(run: seq<HeaderEvent>, n: nat, u: Uid): nat {
    if |run| <= n + 1 then 0
    else
      AnswersAfter(run[..|run| - 1], n, u) +
      if run[|run| - 1] == Info(u, true) && HeadersAwaited(run[..|run| - 1], u) then 1 else 0
  }

  lemma {:induction false} PendingHeaders(run: seq<HeaderEvent>, u: Uid)
    ensures u in ExecHeaders(run).pending <==> HeadersAwaited(run, u)
  {
    if run != [] {
      var front, e := run[..|run| - 1], run[|run| - 1];
      PendingHeaders(front, u);
      if e.FetchHeaders? {
        FetchHolds(ExecHeaders(front), e.uids, if e.withCallback then Some(|run| - 1) else None, u, 0);
      }
    }
  }

  lemma HeaderStepHolds(f: Fetches, e: HeaderEvent, call: nat, u: Uid, n: nat)
    ensures var g := HeaderStep(f, e, call);
      && Held(g, u, n) == Held(f, u, n) + (
           if n == call && e.FetchHeaders? && e.withCallback && u in e.uids && u !in f.pending then 1 else 0)
      && Runs(g, u, n) == Runs(f, u, n) + (if e == Info(u, true) && u in f.pending then Held(f, u, n) else 0)
  {
    match e
    case FetchHeaders(uids, withCallback) => FetchHolds(f, uids, if withCallback then Some(call) else None, u, n);
    case Info(uid, complete) => FireCount(uid, CallbacksOf(f, uid), u, n);
  }

  lemma {:induction false} NotYetGiven(run: seq<HeaderEvent>, n: nat, u: Uid)
    requires |run| <= n
    ensures Held(ExecHeaders(run), u, n) == 0 && Runs(ExecHeaders(run), u, n) == 0
  {
    if run != [] {
      var front, e := run[..|run| - 1], run[|run| - 1];
      NotYetGiven(front, n, u);
      HeaderStepHolds(ExecHeaders(front), e, |run| - 1, u, n);
    }
  }

  /**
   Over every run: a header callback given for a uid is kept, once, and has run exactly as
   often as awaited headers of the uid have come since; no other callback waits or runs for it.
   */
  lemma {:induction false} HeaderCallbackRuns(run: seq<HeaderEvent>, n: nat, u: Uid)
    requires n < |run|
    ensures Held(ExecHeaders(run), u, n) == if HeaderGiven(run, n, u) then 1 else 0
    ensures Runs(ExecHeaders(run), u, n) == if HeaderGiven(run, n, u) then AnswersAfter(run, n, u) else 0
  {
    var front, e := run[..|run| - 1], run[|run| - 1];
    PendingHeaders(front, u);
    HeaderStepHolds(ExecHeaders(front), e, |run| - 1, u, n);
    if n == |run| - 1 {
      NotYetGiven(front, n, u);
    } else {
      HeaderCallbackRuns(front, n, u);
      assert front[..n] == run[..n];
    }
  }
}
