/** The pool with its worker tasks made explicit: `state.worker` is only a reference, and any live task
    may take a turn. It refines the single-worker state machine, so there is never a second worker. */
module CallPoolTasks {
  import opened Wrappers
  import opened CallPool
  import CallPoolRuns

  /** `slot` is the task `state.worker` refers to; `live` holds every task that has not ended. The
      `worker` field of `pool` is not used. */
  datatype Tasks = Tasks(pool: State, slot: Option<nat>, live: map<nat, Worker>, next: nat)

  datatype TaskEvent =
    | CallerEvent(event: Event)
    | Turn(task: nat, event: Event)

  /** The state machine's state, with the worker `slot` refers to. */
  function View(c: Tasks): State {
    c.pool.(worker := if c.slot.Some? && c.slot.value in c.live then c.live[c.slot.value] else Idle)
  }

  /** What one task sees. */
  function SeenBy(c: Tasks, t: nat): State
    requires t in c.live
  {
    c.pool.(worker := c.live[t])
  }

  predicate FromCaller(e: Event) {
    e.Arrive? || e.Cancel?
  }

  ghost predicate TasksInv(c: Tasks) {
    && c.pool.worker.Idle?
    && Inv(View(c))
    && (c.slot.None? ==> c.live == map[])
    && (c.slot.Some? ==> c.slot.value < c.next && c.live.Keys == {c.slot.value} && !c.live[c.slot.value].Idle?)
  }

  predicate TaskEnabled(c: Tasks, e: TaskEvent) {
    match e
    case CallerEvent(event) => FromCaller(event) && Enabled(c.pool, event)
    case Turn(t, event) => t in c.live && !FromCaller(event) && Enabled(SeenBy(c, t), event)
  }

  /** A caller that enqueues a call creates a task unless the referenced one is still live. */
  function OnCaller(c: Tasks, e: Event): Tasks
    requires TasksInv(c) && FromCaller(e)
  {
    match e
    case Cancel(w) => c.(pool := c.pool.(outcomes := c.pool.outcomes[w := Cancelled]))
    case Arrive(request, key, priority) =>
      var p := OnArrive(c.pool, request, key, priority);
      var idle := p.(worker := Idle);
      if p.worker.Ready? && (c.slot.None? || c.slot.value !in c.live)
      then Tasks(idle, Some(c.next), c.live[c.next := Ready], c.next + 1)
      else c.(pool := idle)
  }

  /** A task's turn; a task that ends clears the reference, whichever task it refers to. */
  function OnTurn(c: Tasks, t: nat, e: Event): Tasks
    requires t in c.live && Inv(SeenBy(c, t)) && Enabled(SeenBy(c, t), e)
  {
    var s := Step(SeenBy(c, t), e);
    var idle := s.(worker := Idle);
    if s.worker.Idle? then Tasks(idle, None, c.live - {t}, c.next)
    else Tasks(idle, c.slot, c.live[t := s.worker], c.next)
  }

  lemma OnlySlotTurns(c: Tasks, t: nat)
    requires TasksInv(c) && t in c.live
    ensures c.slot == Some(t) && SeenBy(c, t) == View(c)
  {
  }

  function TaskStep(c: Tasks, e: TaskEvent): Tasks
    requires TasksInv(c) && TaskEnabled(c, e)
  {
    match e
    case CallerEvent(event) => OnCaller(c, event)
    case Turn(t, event) =>
      OnlySlotTurns(c, t);
      OnTurn(c, t, event)
  }

  lemma ArriveUsesWorkerOnce(s: State, w: Worker, request: Request, key: Option<Key>, priority: int)
    requires s.worker.Idle? && forall k :: k in s.pending ==> s.pending[k] in s.calls
    ensures var quiet, seen := OnArrive(s, request, key, priority), OnArrive(s.(worker := w), request, key, priority);
      && (quiet.worker.Idle? || quiet.worker.Ready?)
      && seen == quiet.(worker := if quiet.worker.Ready? && w.Idle? then Ready else w)
  {
  }

  lemma ArriveRefines(c: Tasks, request: Request, key: Option<Key>, priority: int)
    requires TasksInv(c)
    ensures View(OnCaller(c, Arrive(request, key, priority))) == OnArrive(View(c), request, key, priority)
    ensures var d := OnCaller(c, Arrive(request, key, priority));
      && d.pool.worker.Idle?
      && (d.slot.None? ==> d.live == map[])
      && (d.slot.Some? ==> d.slot.value < d.next && d.live.Keys == {d.slot.value} && !d.live[d.slot.value].Idle?)
  {
    ArriveUsesWorkerOnce(c.pool, View(c).worker, request, key, priority);
  }

  lemma CallerStepRefines(c: Tasks, e: Event)
    requires TasksInv(c) && FromCaller(e) && Enabled(c.pool, e)
    ensures Enabled(View(c), e)
    ensures TasksInv(OnCaller(c, e)) && View(OnCaller(c, e)) == Step(View(c), e)
  {
    StepKeepsInv(View(c), e);
    match e {
      case Arrive(request, key, priority) => ArriveRefines(c, request, key, priority);
      case Cancel(w) => assert View(OnCaller(c, e)) == Step(View(c), e);
    }
  }

  lemma TurnRefines(c: Tasks, t: nat, e: Event)
    requires TasksInv(c) && t in c.live && !FromCaller(e) && Enabled(View(c), e)
    ensures SeenBy(c, t) == View(c)
    ensures TasksInv(OnTurn(c, t, e)) && View(OnTurn(c, t, e)) == Step(View(c), e)
  {
    OnlySlotTurns(c, t);
    StepKeepsInv(View(c), e);
    var s := Step(View(c), e);
    var d := OnTurn(c, t, e);
    if s.worker.Idle? {
      assert d.live == map[];
    } else {
      assert d.live.Keys == {t};
    }
    assert View(d) == s;
  }

  /** Every step of the pool with explicit tasks is a step of the single-worker machine. */
  lemma TaskStepRefines(c: Tasks, e: TaskEvent)
    requires TasksInv(c) && TaskEnabled(c, e)
    ensures TasksInv(TaskStep(c, e))
    ensures Enabled(View(c), e.event) && View(TaskStep(c, e)) == Step(View(c), e.event)
  {
    match e {
      case CallerEvent(event) => CallerStepRefines(c, event);
      case Turn(t, event) =>
        OnlySlotTurns(c, t);
        TurnRefines(c, t, event);
    }
  }

  ghost predicate TaskRun(c: Tasks, es: seq<TaskEvent>, d: Tasks)
    requires TasksInv(c)
    decreases |es|
  {
    if es == [] then c == d
    else TaskEnabled(c, es[0]) && (TaskStepRefines(c, es[0]); TaskRun(TaskStep(c, es[0]), es[1..], d))
  }

  /** The tasks with a send in progress. */
  function SendingTasks(c: Tasks): set<nat> {
    set t | t in c.live && c.live[t].Sending?
  }

  /** In every run from an empty pool at most one worker task is live, so at most one send is in
      progress, and a task is live whenever a call is queued or in flight. */
  lemma {:induction false} AtMostOneWorker(c: Tasks, es: seq<TaskEvent>, d: Tasks)
    requires TasksInv(c) && TaskRun(c, es, d)
    ensures TasksInv(d)
    ensures |d.live| <= 1 && |SendingTasks(d)| <= 1
    ensures d.pool.calls != map[] ==> |d.live| == 1
    decreases |es|
  {
    if es == [] {
      LiveTasksOf(d);
    } else {
      TaskStepRefines(c, es[0]);
      AtMostOneWorker(TaskStep(c, es[0]), es[1..], d);
    }
  }

  lemma LiveTasksOf(d: Tasks)
    requires TasksInv(d)
    ensures |d.live| <= 1 && |SendingTasks(d)| <= 1
    ensures d.pool.calls != map[] ==> |d.live| == 1
  {
    assert |d.live| == |d.live.Keys|;
    if d.slot.Some? {
      assert SendingTasks(d) == {} || SendingTasks(d) == {d.slot.value};
    } else {
      assert SendingTasks(d) == {};
      IdleMeansEmpty(View(d));
    }
  }

  lemma IdleMeansEmpty(s: State)
    requires Inv(s) && s.worker.Idle?
    ensures s.calls == map[]
  {
    assert forall o :: o in s.calls ==> o in s.queue;
  }

  function EmptyPool(interval: real, clock: real): Tasks {
    Tasks(Init(interval, clock), None, map[], 0)
  }

  lemma EmptyPoolIsInv(interval: real, clock: real)
    ensures TasksInv(EmptyPool(interval, clock)) && View(EmptyPool(interval, clock)) == Init(interval, clock)
  {
  }

  /** Which single-worker events a run with explicit tasks makes. */
  function Events(es: seq<TaskEvent>): (r: seq<Event>)
    ensures |r| == |es| && forall i :: 0 <= i < |es| ==> r[i] == es[i].event
  {
    seq(|es|, i requires 0 <= i < |es| => es[i].event)
  }

  lemma StepThenRun(c: Tasks, e: TaskEvent, es: seq<Event>, t: State)
    requires TasksInv(c) && TaskEnabled(c, e) && TasksInv(TaskStep(c, e))
    requires CallPoolRuns.Run(View(TaskStep(c, e)), es, t)
    ensures CallPoolRuns.Run(View(c), [e.event] + es, t)
  {
    TaskStepRefines(c, e);
    CallPoolRuns.RunCons(View(c), e.event, es, t);
  }

  /** Every run with explicit tasks is a run of the single-worker machine. */
  lemma {:induction false} TaskRunRefines(c: Tasks, es: seq<TaskEvent>, d: Tasks)
    requires TasksInv(c) && TaskRun(c, es, d)
    ensures TasksInv(d) && CallPoolRuns.Run(View(c), Events(es), View(d))
    decreases |es|
  {
    if es != [] {
      var e, rest := es[0], es[1..];
      TaskStepRefines(c, e);
      TaskRunRefines(TaskStep(c, e), rest, d);
      StepThenRun(c, e, Events(rest), View(d));
      assert Events(es) == [e.event] + Events(rest);
    }
  }

  /** So whatever a pool with explicit tasks can reach the single-worker machine can reach, and all that
      is proved of reachable states holds of it. */
  lemma TaskPoolIsReachable(interval: real, clock: real, es: seq<TaskEvent>, d: Tasks)
    requires TasksInv(EmptyPool(interval, clock)) && TaskRun(EmptyPool(interval, clock), es, d)
    ensures CallPoolRuns.Reachable(View(d))
    ensures |d.live| <= 1 && (d.pool.calls != map[] ==> |d.live| == 1)
  {
    EmptyPoolIsInv(interval, clock);
    TaskRunRefines(EmptyPool(interval, clock), es, d);
    assert CallPoolRuns.RunFromEmpty(interval, clock, Events(es), View(d));
    LiveTasksOf(d);
  }
}
