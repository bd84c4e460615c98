/** The service call pool as a state machine. Each event is one stretch of the original between two
    suspension points, so events are atomic and may come in any order their guards allow. */
module CallPool {
  import opened Wrappers

  /** Opaque values: a service call, and the key two equal service calls share. */
  type Request = string
  type Key = string

  datatype Call = Call(priority: int, order: nat, request: Request, key: Option<Key>, waiters: seq<nat>)

  /** The single worker: absent, created but not yet run, pacing, or awaiting a send. `seen` is the
      number of calls enqueued when the current one was taken from the queue. */
  datatype Worker =
    | Idle
    | Ready
    | Sleeping(order: nat, until: real, seen: nat)
    | Sending(order: nat, startedAt: real, seen: nat)
  {
    function Current(): Option<nat> {
      if Sleeping? || Sending? then Some(order) else None
    }
  }

  /** A caller of the pool and what it asked for; `ticket` is the order number of the call it waits for. */
  datatype Caller = Caller(request: Request, key: Option<Key>, priority: int, ticket: nat)

  /** What became of a caller: the result or the exception of a send, or it stopped waiting. */
  datatype Outcome = Answered(send: nat) | Raised(send: nat) | Cancelled

  /** A finished send; `ok` is false when the service raised. */
  datatype Send = Send(priority: int, order: nat, request: Request, key: Option<Key>, start: real, end: real, ok: bool)

  datatype State = State(
    interval: real,
    queue: seq<nat>,
    calls: map<nat, Call>,
    pending: map<Key, nat>,
    worker: Worker,
    lastSentAt: real,
    order: nat,
    clock: real,
    callers: seq<Caller>,
    outcomes: map<nat, Outcome>,
    sends: seq<Send>)

  datatype Event =
    | Arrive(request: Request, key: Option<Key>, priority: int)
    | Cancel(caller: nat)
    | Start(now: real)
    | Wake(now: real)
    | Finish(ok: bool, now: real, again: real)

  // ---------- steps ----------

  /** The heap's order: smaller priority number first, then enqueue order. */
  predicate Before(a: Call, b: Call) {
    a.priority < b.priority || (a.priority == b.priority && a.order < b.order)
  }

  /** Position of the call the heap yields. */
  function LeastIndex(queue: seq<nat>, calls: map<nat, Call>): (i: nat)
    requires queue != [] && forall o :: o in queue ==> o in calls
    ensures i < |queue|
    ensures forall j :: 0 <= j < |queue| ==> !Before(calls[queue[j]], calls[queue[i]])
    decreases |queue|
  {
    var last := |queue| - 1;
    if last == 0 then 0
    else
      var i := LeastIndex(queue[..last], calls);
      assert queue[..last][i] == queue[i];
      assert forall j :: 0 <= j < last ==> queue[..last][j] == queue[j];
      if Before(calls[queue[last]], calls[queue[i]]) then last else i
  }

  function Remove(queue: seq<nat>, i: nat): seq<nat>
    requires i < |queue|
  {
    queue[..i] + queue[i + 1..]
  }

  /** A caller joins the pending call with its key, or enqueues a new one and makes sure a worker
      exists. */
  function OnArrive(s: State, request: Request, key: Option<Key>, priority: int): State
    requires forall k :: k in s.pending ==> s.pending[k] in s.calls
  {
    var w := |s.callers|;
    if key.Some? && key.value in s.pending then
      var o := s.pending[key.value];
      var c := s.calls[o];
      s.(calls := s.calls[o := c.(waiters := c.waiters + [w])], callers := s.callers + [Caller(request, key, priority, o)])
    else
      var o := s.order + 1;
      s.(order := o,
         queue := s.queue + [o],
         calls := s.calls[o := Call(priority, o, request, key, [w])],
         pending := if key.Some? then s.pending[key.value := o] else s.pending,
         worker := if s.worker.Idle? then Ready else s.worker,
         callers := s.callers + [Caller(request, key, priority, o)])
  }

  /** The top of the worker's loop: exit, or take the least call and either pace or send. */
  function TakeNext(s: State, now: real): State
    requires forall o :: o in s.queue ==> o in s.calls
  {
    if s.queue == [] then s.(worker := Idle, clock := now)
    else
      var i := LeastIndex(s.queue, s.calls);
      var wait := s.interval - (now - s.lastSentAt);
      var worker := if wait > 0.0 then Sleeping(s.queue[i], now + wait, s.order) else Sending(s.queue[i], now, s.order);
      s.(queue := Remove(s.queue, i), worker := worker, clock := now)
  }

  /** Every waiter without an outcome gets this one. */
  function AnswerAll(outcomes: map<nat, Outcome>, waiters: seq<nat>, outcome: Outcome): (r: map<nat, Outcome>)
    ensures forall w :: w in r <==> w in outcomes || w in waiters
    ensures forall w :: w in r ==> r[w] == if w in outcomes then outcomes[w] else outcome
    decreases |waiters|
  {
    if waiters == [] then outcomes
    else
      var last := |waiters| - 1;
      var r := AnswerAll(outcomes, waiters[..last], outcome);
      assert waiters == waiters[..last] + [waiters[last]];
      if waiters[last] in r then r else r[waiters[last] := outcome]
  }

  /** What the end of a send gives to those still waiting for it. */
  function Resolution(ok: bool, send: nat): Outcome {
    if ok then Answered(send) else Raised(send)
  }

  /** The end of a send: resolve the waiters, free the key, note the time. */
  function Complete(s: State, ok: bool, now: real): State
    requires s.worker.Sending? && s.worker.order in s.calls
  {
    var o := s.worker.order;
    var c := s.calls[o];
    s.(sends := s.sends + [Send(c.priority, o, c.request, c.key, s.worker.startedAt, now, ok)],
       outcomes := AnswerAll(s.outcomes, c.waiters, Resolution(ok, |s.sends|)),
       pending := if c.key.Some? then s.pending - {c.key.value} else s.pending,
       calls := s.calls - {o},
       worker := Ready,
       lastSentAt := now,
       clock := now)
  }

  /** When an event can happen. Clock readings never go back; a sleep lasts at least as long as asked. */
  predicate Enabled(s: State, e: Event) {
    match e
    case Arrive(_, _, _) => true
    case Cancel(w) => w < |s.callers| && w !in s.outcomes
    case Start(now) => s.worker.Ready? && s.clock <= now
    case Wake(now) => s.worker.Sleeping? && s.clock <= now && s.worker.until <= now
    case Finish(_, now, again) => s.worker.Sending? && s.clock <= now <= again
  }

  function Step(s: State, e: Event): State
    requires Inv(s) && Enabled(s, e)
  {
    match e
    case Arrive(request, key, priority) => OnArrive(s, request, key, priority)
    case Cancel(w) => s.(outcomes := s.outcomes[w := Cancelled])
    case Start(now) => TakeNext(s, now)
    case Wake(now) => s.(worker := Sending(s.worker.order, now, s.worker.seen), clock := now)
    case Finish(ok, now, again) =>
      CompleteKeepsCore(s, ok, now);
      TakeNext(Complete(s, ok, now), again)
  }

  function Init(interval: real, clock: real): State {
    State(if interval < 0.0 then 0.0 else interval, [], map[], map[], Idle, 0.0, 0, clock, [], map[], [])
  }

  // ---------- the invariant ----------

  /** The live calls are the queued ones and the current one, all distinct. */
  ghost predicate QueueInv(s: State) {
    && (forall i, j :: 0 <= i < j < |s.queue| ==> s.queue[i] != s.queue[j])
    && (forall o :: o in s.queue ==> o in s.calls)
    && (s.worker.Current().Some? ==> s.worker.Current().value in s.calls && s.worker.Current().value !in s.queue)
    && (forall o :: o in s.calls ==> o in s.queue || s.worker.Current() == Some(o))
    && (forall o :: o in s.calls ==> s.calls[o].order == o && 1 <= o <= s.order)
  }

  /** A key is pending exactly when a live call has it, and then that call is the only one. */
  ghost predicate PendingInv(s: State) {
    && (forall k :: k in s.pending ==> s.pending[k] in s.calls && s.calls[s.pending[k]].key == Some(k))
    && (forall o :: o in s.calls && s.calls[o].key.Some? ==>
        s.calls[o].key.value in s.pending && s.pending[s.calls[o].key.value] == o)
  }

  /** A call can answer a caller: same key, and the very same request if there is no key. */
  predicate Serves(c: Call, caller: Caller) {
    c.key == caller.key && (c.key.None? ==> c.request == caller.request)
  }

  /** Everyone in a call's list joined this call. */
  ghost predicate WaitersJoined(c: Call, callers: seq<Caller>) {
    forall w: nat :: w in c.waiters ==> w < |callers| && callers[w].ticket == c.order
  }

  /** A caller without an outcome waits in the call it joined. */
  ghost predicate Placed(w: nat, caller: Caller, calls: map<nat, Call>, answered: bool, order: nat) {
    var o := caller.ticket;
    && 1 <= o <= order
    && (!answered ==> o in calls)
    && (o in calls ==> w in calls[o].waiters && Serves(calls[o], caller))
  }

  /** Every caller has an outcome or waits in exactly the call it joined; a call without a key has one
      caller only. */
  ghost predicate CallerInv(s: State) {
    && (forall o :: o in s.calls ==> WaitersJoined(s.calls[o], s.callers))
    && (forall w: nat :: w < |s.callers| ==> Placed(w, s.callers[w], s.calls, w in s.outcomes, s.order))
    && (forall w, v :: 0 <= w < v < |s.callers| && s.callers[w].ticket == s.callers[v].ticket ==> s.callers[w].key.Some?)
  }

  /** A result or an exception comes from the send of the call the caller joined, with the caller's
      key; a result from one that succeeded, an exception from one that failed. */
  ghost predicate RightAnswer(outcome: Outcome, caller: Caller, sends: seq<Send>) {
    !outcome.Cancelled? ==>
      && outcome.send < |sends|
      && outcome == Resolution(sends[outcome.send].ok, outcome.send)
      && sends[outcome.send].order == caller.ticket
      && sends[outcome.send].key == caller.key
      && (caller.key.None? ==> sends[outcome.send].request == caller.request)
  }

  ghost predicate OutcomeInv(s: State) {
    forall w :: w in s.outcomes ==> w < |s.callers| && RightAnswer(s.outcomes[w], s.callers[w], s.sends)
  }

  /** Order numbers of finished sends are distinct, old, and no longer live. */
  ghost predicate SendInv(s: State) {
    && (forall i :: 0 <= i < |s.sends| ==> 1 <= s.sends[i].order <= s.order && s.sends[i].order !in s.calls)
    && (forall i, j :: 0 <= i < j < |s.sends| ==> s.sends[i].order != s.sends[j].order)
  }

  /** Going ahead of an earlier arrival takes strictly greater urgency. */
  predicate FairAhead(priorityA: int, orderA: nat, priorityB: int, orderB: nat) {
    orderA > orderB ==> priorityA < priorityB
  }

  ghost predicate FairInv(s: State) {
    && (forall i, j :: 0 <= i < j < |s.sends| ==>
        FairAhead(s.sends[i].priority, s.sends[i].order, s.sends[j].priority, s.sends[j].order))
    && (forall i, o :: 0 <= i < |s.sends| && o in s.calls ==>
        FairAhead(s.sends[i].priority, s.sends[i].order, s.calls[o].priority, o))
    && (s.worker.Current().Some? && s.worker.Current().value in s.calls ==>
        && s.worker.seen <= s.order
        && (forall o :: o in s.queue && o in s.calls && o <= s.worker.seen ==>
            Before(s.calls[s.worker.Current().value], s.calls[o]))
        && s.worker.Current().value <= s.worker.seen)
  }

  ghost predicate TimeInv(s: State) {
    && s.interval >= 0.0
    && (s.sends != [] ==> s.lastSentAt == s.sends[|s.sends| - 1].end && s.lastSentAt <= s.clock)
    && (forall i :: 0 <= i < |s.sends| ==> s.sends[i].start <= s.sends[i].end)
    && (forall i :: 0 < i < |s.sends| ==> s.sends[i - 1].end + s.interval <= s.sends[i].start)
    && (s.worker.Sleeping? ==> s.lastSentAt + s.interval == s.worker.until)
    && (s.worker.Sending? ==> s.lastSentAt + s.interval <= s.worker.startedAt <= s.clock)
  }

  ghost predicate Core(s: State) {
    QueueInv(s) && PendingInv(s) && CallerInv(s) && OutcomeInv(s) && SendInv(s) && FairInv(s) && TimeInv(s)
  }

  /** Between suspension points a queued call implies a worker, and a created worker has work. */
  ghost predicate WorkerInv(s: State) {
    (s.worker.Idle? ==> s.queue == []) && (s.worker.Ready? ==> s.queue != [])
  }

  ghost predicate Inv(s: State) {
    Core(s) && WorkerInv(s)
  }

  // ---------- every event keeps it ----------

  lemma CompleteKeepsQueue(s: State, ok: bool, now: real)
    requires QueueInv(s) && PendingInv(s) && s.worker.Sending?
    ensures QueueInv(Complete(s, ok, now)) && PendingInv(Complete(s, ok, now))
  {
  }

  lemma CompleteKeepsCallers(s: State, ok: bool, now: real)
    requires QueueInv(s) && CallerInv(s) && OutcomeInv(s) && s.worker.Sending?
    ensures CallerInv(Complete(s, ok, now)) && OutcomeInv(Complete(s, ok, now))
  {
    var t := Complete(s, ok, now);
    var c := s.calls[s.worker.order];
    forall w: nat | w < |t.callers|
      ensures Placed(w, t.callers[w], t.calls, w in t.outcomes, t.order)
    {
      assert Placed(w, s.callers[w], s.calls, w in s.outcomes, s.order);
    }
    forall w | w in t.outcomes
      ensures w < |t.callers| && RightAnswer(t.outcomes[w], t.callers[w], t.sends)
    {
      if w !in s.outcomes {
        assert w in c.waiters && WaitersJoined(c, s.callers);
        assert Placed(w, s.callers[w], s.calls, false, s.order);
      }
    }
  }

  lemma CompleteKeepsSends(s: State, ok: bool, now: real)
    requires QueueInv(s) && SendInv(s) && s.worker.Sending?
    ensures SendInv(Complete(s, ok, now))
  {
  }

  lemma CompleteKeepsTime(s: State, ok: bool, now: real)
    requires QueueInv(s) && TimeInv(s) && s.worker.Sending? && s.clock <= now
    ensures TimeInv(Complete(s, ok, now))
  {
  }

  lemma CompleteKeepsFair(s: State, ok: bool, now: real)
    requires QueueInv(s) && FairInv(s) && s.worker.Sending?
    ensures FairInv(Complete(s, ok, now))
  {
    var t, o := Complete(s, ok, now), s.worker.order;
    forall q | q in t.calls
      ensures FairAhead(s.calls[o].priority, o, t.calls[q].priority, q)
    {
      assert q in s.queue;
    }
  }

  lemma CompleteKeepsCore(s: State, ok: bool, now: real)
    requires Core(s) && s.worker.Sending? && s.clock <= now
    ensures Core(Complete(s, ok, now))
  {
    CompleteKeepsQueue(s, ok, now);
    CompleteKeepsCallers(s, ok, now);
    CompleteKeepsSends(s, ok, now);
    CompleteKeepsTime(s, ok, now);
    CompleteKeepsFair(s, ok, now);
  }

  lemma CancelKeepsCallers(s: State, w: nat)
    requires CallerInv(s) && OutcomeInv(s) && Enabled(s, Cancel(w))
    ensures CallerInv(s.(outcomes := s.outcomes[w := Cancelled])) && OutcomeInv(s.(outcomes := s.outcomes[w := Cancelled]))
  {
    var t := s.(outcomes := s.outcomes[w := Cancelled]);
    forall v: nat | v < |t.callers|
      ensures Placed(v, t.callers[v], t.calls, v in t.outcomes, t.order)
    {
      assert Placed(v, s.callers[v], s.calls, v in s.outcomes, s.order);
    }
  }

  lemma CancelKeepsInv(s: State, w: nat)
    requires Inv(s) && Enabled(s, Cancel(w))
    ensures Inv(s.(outcomes := s.outcomes[w := Cancelled]))
  {
    CancelKeepsCallers(s, w);
  }

  lemma WakeKeepsInv(s: State, now: real)
    requires Inv(s) && Enabled(s, Wake(now))
    ensures Inv(s.(worker := Sending(s.worker.order, now, s.worker.seen), clock := now))
  {
  }

  lemma JoinKeepsCallers(s: State, request: Request, key: Key, priority: int)
    requires QueueInv(s) && PendingInv(s) && CallerInv(s) && OutcomeInv(s) && key in s.pending
    ensures CallerInv(OnArrive(s, request, Some(key), priority))
  {
    var t := OnArrive(s, request, Some(key), priority);
    var o, w0 := s.pending[key], |s.callers|;
    assert s.calls[o].key == Some(key);
    assert WaitersJoined(s.calls[o], s.callers);
    forall w: nat | w < |t.callers|
      ensures Placed(w, t.callers[w], t.calls, w in t.outcomes, t.order)
    {
      if w < w0 {
        assert Placed(w, s.callers[w], s.calls, w in s.outcomes, s.order);
      }
    }
    forall w | 0 <= w < w0 && s.callers[w].ticket == o
      ensures s.callers[w].key.Some?
    {
      assert Placed(w, s.callers[w], s.calls, w in s.outcomes, s.order);
    }
  }

  lemma JoinKeepsQueue(s: State, request: Request, key: Key, priority: int)
    requires QueueInv(s) && PendingInv(s) && key in s.pending
    ensures QueueInv(OnArrive(s, request, Some(key), priority)) && PendingInv(OnArrive(s, request, Some(key), priority))
  {
  }

  lemma JoinKeepsHistory(s: State, request: Request, key: Key, priority: int)
    requires QueueInv(s) && PendingInv(s) && OutcomeInv(s) && SendInv(s) && FairInv(s) && key in s.pending
    ensures OutcomeInv(OnArrive(s, request, Some(key), priority))
    ensures SendInv(OnArrive(s, request, Some(key), priority)) && FairInv(OnArrive(s, request, Some(key), priority))
  {
  }

  lemma ArriveKeepsTime(s: State, request: Request, key: Option<Key>, priority: int)
    requires PendingInv(s) && TimeInv(s) && WorkerInv(s)
    ensures TimeInv(OnArrive(s, request, key, priority)) && WorkerInv(OnArrive(s, request, key, priority))
  {
  }

  lemma JoinKeepsInv(s: State, request: Request, key: Key, priority: int)
    requires Inv(s) && key in s.pending
    ensures Inv(OnArrive(s, request, Some(key), priority))
  {
    JoinKeepsQueue(s, request, key, priority);
    JoinKeepsCallers(s, request, key, priority);
    JoinKeepsHistory(s, request, key, priority);
    ArriveKeepsTime(s, request, Some(key), priority);
  }

  lemma EnqueueKeepsCallers(s: State, request: Request, key: Option<Key>, priority: int)
    requires QueueInv(s) && PendingInv(s) && CallerInv(s) && OutcomeInv(s) && (key.Some? ==> key.value !in s.pending)
    ensures CallerInv(OnArrive(s, request, key, priority))
  {
    var t := OnArrive(s, request, key, priority);
    TicketsAreOld(s);
    EnqueueKeepsPlaces(s, request, key, priority);
    assert forall o :: o in t.calls ==> WaitersJoined(t.calls[o], t.callers);
  }

  lemma EnqueueKeepsPlaces(s: State, request: Request, key: Option<Key>, priority: int)
    requires QueueInv(s) && PendingInv(s) && CallerInv(s) && OutcomeInv(s) && (key.Some? ==> key.value !in s.pending)
    ensures var t := OnArrive(s, request, key, priority);
      forall w: nat :: w < |t.callers| ==> Placed(w, t.callers[w], t.calls, w in t.outcomes, t.order)
  {
    var t := OnArrive(s, request, key, priority);
    forall w: nat | w < |t.callers|
      ensures Placed(w, t.callers[w], t.calls, w in t.outcomes, t.order)
    {
      if w < |s.callers| {
        assert Placed(w, s.callers[w], s.calls, w in s.outcomes, s.order);
      }
    }
  }

  lemma TicketsAreOld(s: State)
    requires CallerInv(s)
    ensures forall w :: 0 <= w < |s.callers| ==> s.callers[w].ticket <= s.order
  {
    forall w | 0 <= w < |s.callers|
      ensures s.callers[w].ticket <= s.order
    {
      assert Placed(w, s.callers[w], s.calls, w in s.outcomes, s.order);
    }
  }

  lemma EnqueueKeepsQueue(s: State, request: Request, key: Option<Key>, priority: int)
    requires QueueInv(s) && PendingInv(s) && WorkerInv(s) && (key.Some? ==> key.value !in s.pending)
    ensures QueueInv(OnArrive(s, request, key, priority))
  {
    assert forall i :: 0 <= i < |s.queue| ==> s.queue[i] in s.queue;
    assert s.order + 1 !in s.calls;
  }

  lemma EnqueueKeepsPending(s: State, request: Request, key: Option<Key>, priority: int)
    requires QueueInv(s) && PendingInv(s) && (key.Some? ==> key.value !in s.pending)
    ensures PendingInv(OnArrive(s, request, key, priority))
  {
    assert s.order + 1 !in s.calls;
  }

  lemma EnqueueKeepsHistory(s: State, request: Request, key: Option<Key>, priority: int)
    requires QueueInv(s) && PendingInv(s) && OutcomeInv(s) && SendInv(s) && FairInv(s) && (key.Some? ==> key.value !in s.pending)
    ensures OutcomeInv(OnArrive(s, request, key, priority)) && SendInv(OnArrive(s, request, key, priority))
    ensures FairInv(OnArrive(s, request, key, priority))
  {
  }

  lemma EnqueueKeepsInv(s: State, request: Request, key: Option<Key>, priority: int)
    requires Inv(s) && (key.Some? ==> key.value !in s.pending)
    ensures Inv(OnArrive(s, request, key, priority))
  {
    EnqueueKeepsQueue(s, request, key, priority);
    EnqueueKeepsPending(s, request, key, priority);
    EnqueueKeepsCallers(s, request, key, priority);
    EnqueueKeepsHistory(s, request, key, priority);
    ArriveKeepsTime(s, request, key, priority);
  }

  lemma RemoveElements(queue: seq<nat>, i: nat)
    requires i < |queue| && forall a, b :: 0 <= a < b < |queue| ==> queue[a] != queue[b]
    ensures forall o :: o in Remove(queue, i) <==> o in queue && o != queue[i]
    ensures forall a, b :: 0 <= a < b < |Remove(queue, i)| ==> Remove(queue, i)[a] != Remove(queue, i)[b]
  {
    forall o | o in queue && o != queue[i]
      ensures o in Remove(queue, i)
    {
      var k :| 0 <= k < |queue| && queue[k] == o;
      assert Remove(queue, i)[if k < i then k else k - 1] == o;
    }
  }

  /** What is taken comes before everything left in the queue. */
  lemma TakenIsLeast(s: State, i: nat, o: nat)
    requires QueueInv(s) && s.queue != [] && i == LeastIndex(s.queue, s.calls)
    requires o in Remove(s.queue, i)
    ensures o in s.calls && Before(s.calls[s.queue[i]], s.calls[o])
  {
    RemoveElements(s.queue, i);
    var k :| 0 <= k < |s.queue| && s.queue[k] == o;
    assert s.queue[i] in s.queue;
    assert !Before(s.calls[s.queue[k]], s.calls[s.queue[i]]);
  }

  lemma TakeNextKeepsQueue(s: State, now: real)
    requires QueueInv(s) && s.worker.Ready?
    ensures QueueInv(TakeNext(s, now))
  {
    if s.queue != [] {
      var i := LeastIndex(s.queue, s.calls);
      RemoveElements(s.queue, i);
      assert s.queue[i] in s.queue;
    }
  }

  lemma TakeNextKeepsFair(s: State, now: real)
    requires QueueInv(s) && FairInv(s) && s.worker.Ready?
    ensures FairInv(TakeNext(s, now))
  {
    if s.queue != [] {
      var i := LeastIndex(s.queue, s.calls);
      assert s.queue[i] in s.queue;
      forall o | o in Remove(s.queue, i)
        ensures Before(s.calls[s.queue[i]], s.calls[o])
      {
        TakenIsLeast(s, i, o);
      }
    }
  }

  lemma TakeNextKeepsRest(s: State, now: real)
    requires Core(s) && s.worker.Ready?
    ensures PendingInv(TakeNext(s, now)) && CallerInv(TakeNext(s, now)) && OutcomeInv(TakeNext(s, now))
    ensures SendInv(TakeNext(s, now)) && WorkerInv(TakeNext(s, now))
  {
  }

  lemma TakeNextKeepsTime(s: State, now: real)
    requires QueueInv(s) && TimeInv(s) && s.worker.Ready? && s.clock <= now
    ensures TimeInv(TakeNext(s, now))
  {
  }

  lemma TakeNextKeepsInv(s: State, now: real)
    requires Core(s) && s.worker.Ready? && s.clock <= now
    ensures Inv(TakeNext(s, now))
  {
    TakeNextKeepsQueue(s, now);
    TakeNextKeepsFair(s, now);
    TakeNextKeepsRest(s, now);
    TakeNextKeepsTime(s, now);
  }

  lemma StepKeepsInv(s: State, e: Event)
    requires Inv(s) && Enabled(s, e)
    ensures Inv(Step(s, e))
  {
    match e {
      case Arrive(request, key, priority) =>
        if key.Some? && key.value in s.pending {
          JoinKeepsInv(s, request, key.value, priority);
        } else {
          EnqueueKeepsInv(s, request, key, priority);
        }
      case Cancel(w) => CancelKeepsInv(s, w);
      case Start(now) => TakeNextKeepsInv(s, now);
      case Wake(now) => WakeKeepsInv(s, now);
      case Finish(ok, now, again) =>
        CompleteKeepsCore(s, ok, now);
        TakeNextKeepsInv(Complete(s, ok, now), again);
    }
  }
}
