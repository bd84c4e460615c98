/** What the pool sends and when: every send carries what its first caller asked for, a caller who gives
    up changes nothing for the others, and sends start at the clock readings they are recorded with. */
module CallPoolSends {
  import opened Wrappers
  import opened CallPool
  import opened CallPoolRuns

  // ---------- what is sent ----------

  /** Caller `w` asked for exactly this and was the first to get this number, which is greater than every
      earlier caller's. */
  ghost predicate AskedFirst(
      callers: seq<Caller>, w: nat, request: Request, key: Option<Key>, priority: int, order: nat)
  {
    && w < |callers| && callers[w] == Caller(request, key, priority, order)
    && forall v :: 0 <= v < w ==> callers[v].ticket < order
  }

  ghost predicate CallAsked(callers: seq<Caller>, c: Call) {
    c.waiters != [] && AskedFirst(callers, c.waiters[0], c.request, c.key, c.priority, c.order)
  }

  ghost predicate SendAsked(callers: seq<Caller>, send: Send) {
    exists w :: AskedFirst(callers, w, send.request, send.key, send.priority, send.order)
  }

  ghost predicate AllAsked(s: State) {
    && (forall o :: o in s.calls ==> CallAsked(s.callers, s.calls[o]))
    && (forall i :: 0 <= i < |s.sends| ==> SendAsked(s.callers, s.sends[i]))
  }

  lemma MoreCallersKeepSent(callers: seq<Caller>, more: seq<Caller>, send: Send)
    requires SendAsked(callers, send)
    ensures SendAsked(callers + more, send)
  {
    var w :| AskedFirst(callers, w, send.request, send.key, send.priority, send.order);
    assert AskedFirst(callers + more, w, send.request, send.key, send.priority, send.order);
  }

  lemma ArriveKeepsAsked(s: State, request: Request, key: Option<Key>, priority: int)
    requires QueueInv(s) && PendingInv(s) && CallerInv(s) && AllAsked(s)
    ensures AllAsked(OnArrive(s, request, key, priority))
  {
    var t := OnArrive(s, request, key, priority);
    ArriveKeepsCallsAsked(s, request, key, priority);
    forall i | 0 <= i < |t.sends|
      ensures SendAsked(t.callers, t.sends[i])
    {
      MoreCallersKeepSent(s.callers, t.callers[|s.callers|..], s.sends[i]);
    }
  }

  lemma GrownCallAsked(callers: seq<Caller>, caller: Caller, c: Call, grown: Call)
    requires CallAsked(callers, c) && c.waiters <= grown.waiters && grown == c.(waiters := grown.waiters)
    ensures CallAsked(callers + [caller], grown)
  {
  }

  lemma NewCallAsked(callers: seq<Caller>, c: Call)
    requires c.waiters == [|callers|] && forall v :: 0 <= v < |callers| ==> callers[v].ticket < c.order
    ensures CallAsked(callers + [Caller(c.request, c.key, c.priority, c.order)], c)
  {
  }

  lemma ArriveKeepsCallsAsked(s: State, request: Request, key: Option<Key>, priority: int)
    requires QueueInv(s) && PendingInv(s) && CallerInv(s) && AllAsked(s)
    ensures var t := OnArrive(s, request, key, priority);
      && t.sends == s.sends && t.callers == s.callers + t.callers[|s.callers|..]
      && forall o :: o in t.calls ==> CallAsked(t.callers, t.calls[o])
  {
    var t := OnArrive(s, request, key, priority);
    TicketsAreOld(s);
    forall o | o in t.calls
      ensures CallAsked(t.callers, t.calls[o])
    {
      if o in s.calls {
        GrownCallAsked(s.callers, t.callers[|s.callers|], s.calls[o], t.calls[o]);
      } else {
        NewCallAsked(s.callers, t.calls[o]);
      }
    }
  }

  lemma CompleteKeepsAsked(s: State, ok: bool, now: real)
    requires QueueInv(s) && AllAsked(s) && s.worker.Sending?
    ensures AllAsked(Complete(s, ok, now))
  {
    var t, c := Complete(s, ok, now), s.calls[s.worker.order];
    var sent := t.sends[|s.sends|];
    assert CallAsked(s.callers, c);
    assert AskedFirst(s.callers, c.waiters[0], sent.request, sent.key, sent.priority, sent.order);
    forall i | 0 <= i < |t.sends|
      ensures SendAsked(t.callers, t.sends[i])
    {
      assert i < |s.sends| ==> t.sends[i] == s.sends[i];
    }
  }

  lemma TakeKeepsAsked(s: State, now: real)
    requires QueueInv(s) && AllAsked(s)
    ensures AllAsked(TakeNext(s, now))
  {
  }

  lemma StepKeepsAsked(s: State, e: Event)
    requires Inv(s) && AllAsked(s) && Enabled(s, e)
    ensures AllAsked(Step(s, e))
  {
    match e {
      case Arrive(request, key, priority) => ArriveKeepsAsked(s, request, key, priority);
      case Cancel(_) =>
      case Start(now) => TakeKeepsAsked(s, now);
      case Wake(_) =>
      case Finish(ok, now, again) =>
        CompleteKeepsCore(s, ok, now);
        CompleteKeepsAsked(s, ok, now);
        TakeKeepsAsked(Complete(s, ok, now), again);
    }
  }

  lemma {:induction false} RunKeepsAsked(s: State, es: seq<Event>, t: State)
    requires Inv(s) && AllAsked(s) && Run(s, es, t)
    ensures AllAsked(t)
    decreases |es|
  {
    if es != [] {
      StepKeepsInv(s, es[0]);
      StepKeepsAsked(s, es[0]);
      RunKeepsAsked(Step(s, es[0]), es[1..], t);
    }
  }

  lemma ReachableAsked(s: State)
    requires Reachable(s)
    ensures AllAsked(s)
  {
    var interval: real, clock: real, es :| RunFromEmpty(interval, clock, es, s);
    InitIsInv(interval, clock);
    RunKeepsAsked(Init(interval, clock), es, s);
  }

  /** After every run, each send carries the very request, key and priority of one caller: the first that
      was given the call's number. */
  lemma SendsCarryFirstRequest(s: State, i: nat) returns (w: nat)
    requires Reachable(s) && i < |s.sends|
    ensures w < |s.callers| && s.callers[w].ticket == s.sends[i].order
    ensures s.callers[w].request == s.sends[i].request && s.callers[w].key == s.sends[i].key
    ensures s.callers[w].priority == s.sends[i].priority
    ensures forall v :: 0 <= v < w ==> s.callers[v].ticket < s.sends[i].order
  {
    ReachableAsked(s);
    assert SendAsked(s.callers, s.sends[i]);
    w :| AskedFirst(s.callers, w, s.sends[i].request, s.sends[i].key, s.sends[i].priority, s.sends[i].order);
  }

  /** So does every call still queued or in flight. */
  lemma CallsCarryFirstRequest(s: State, o: nat) returns (w: nat)
    requires Reachable(s) && o in s.calls
    ensures w < |s.callers| && s.calls[o].order == o
    ensures s.callers[w] == Caller(s.calls[o].request, s.calls[o].key, s.calls[o].priority, o)
    ensures forall v :: 0 <= v < w ==> s.callers[v].ticket < o
  {
    ReachableIsInv(s);
    ReachableAsked(s);
    assert CallAsked(s.callers, s.calls[o]);
    w := s.calls[o].waiters[0];
  }

  /** Whoever has a result or an exception has it from a send of its own request, or of that of an earlier
      caller with the same key. */
  lemma AnswersCarryRequest(s: State, w: nat) returns (first: nat)
    requires Reachable(s) && w in s.outcomes && !s.outcomes[w].Cancelled?
    ensures first <= w < |s.callers| && s.outcomes[w].send < |s.sends|
    ensures s.sends[s.outcomes[w].send].request == s.callers[first].request
    ensures s.callers[first].key == s.callers[w].key && (s.callers[w].key.None? ==> first == w)
  {
    ReachableIsInv(s);
    AnswersMatchKeys(s, w);
    first := SendsCarryFirstRequest(s, s.outcomes[w].send);
    assert RightAnswer(s.outcomes[w], s.callers[w], s.sends);
  }

  // ---------- giving up ----------

  function WithCancelled(s: State, w: nat): State {
    s.(outcomes := s.outcomes[w := Cancelled])
  }

  lemma WithCancelledKeepsInv(s: State, w: nat)
    requires Inv(s) && w < |s.callers|
    ensures Inv(WithCancelled(s, w))
  {
    CancelledKeepsCallers(s, w);
    CancelledKeepsCalls(s, w);
    CancelledKeepsHistory(s, w);
  }

  lemma CancelledKeepsCalls(s: State, w: nat)
    requires QueueInv(s) && PendingInv(s) && WorkerInv(s)
    ensures QueueInv(WithCancelled(s, w)) && PendingInv(WithCancelled(s, w)) && WorkerInv(WithCancelled(s, w))
  {
  }

  lemma CancelledKeepsHistory(s: State, w: nat)
    requires SendInv(s) && FairInv(s) && TimeInv(s)
    ensures SendInv(WithCancelled(s, w)) && FairInv(WithCancelled(s, w)) && TimeInv(WithCancelled(s, w))
  {
  }

  lemma CancelledKeepsCallers(s: State, w: nat)
    requires CallerInv(s) && OutcomeInv(s) && w < |s.callers|
    ensures CallerInv(WithCancelled(s, w)) && OutcomeInv(WithCancelled(s, w))
  {
    var t := WithCancelled(s, w);
    forall v: nat | v < |t.callers|
      ensures Placed(v, t.callers[v], t.calls, v in t.outcomes, t.order)
    {
      assert Placed(v, s.callers[v], s.calls, v in s.outcomes, s.order);
    }
  }

  lemma ArriveAfterCancel(s: State, w: nat, request: Request, key: Option<Key>, priority: int)
    requires forall k :: k in s.pending ==> s.pending[k] in s.calls
    ensures OnArrive(WithCancelled(s, w), request, key, priority) == WithCancelled(OnArrive(s, request, key, priority), w)
  {
  }

  lemma TakeAfterCancel(s: State, w: nat, now: real)
    requires forall o :: o in s.queue ==> o in s.calls
    ensures TakeNext(WithCancelled(s, w), now) == WithCancelled(TakeNext(s, now), w)
  {
  }

  lemma CompleteAfterCancel(s: State, w: nat, ok: bool, now: real)
    requires s.worker.Sending? && s.worker.order in s.calls
    ensures Complete(WithCancelled(s, w), ok, now) == WithCancelled(Complete(s, ok, now), w)
  {
    AnswersAfterCancel(s.outcomes, s.calls[s.worker.order].waiters, Resolution(ok, |s.sends|), w);
  }

  lemma AnswersAfterCancel(outcomes: map<nat, Outcome>, waiters: seq<nat>, outcome: Outcome, w: nat)
    ensures AnswerAll(outcomes[w := Cancelled], waiters, outcome) == AnswerAll(outcomes, waiters, outcome)[w := Cancelled]
  {
  }

  lemma FinishAfterCancel(s: State, w: nat, ok: bool, now: real, again: real)
    requires s.worker.Sending? && s.worker.order in s.calls && QueueInv(Complete(s, ok, now))
    ensures QueueInv(Complete(WithCancelled(s, w), ok, now))
    ensures TakeNext(Complete(WithCancelled(s, w), ok, now), again) == WithCancelled(TakeNext(Complete(s, ok, now), again), w)
  {
    CompleteAfterCancel(s, w, ok, now);
    TakeAfterCancel(Complete(s, ok, now), w, again);
  }

  lemma CancelAfterCancel(s: State, w: nat, v: nat)
    ensures WithCancelled(WithCancelled(s, w), v) == WithCancelled(WithCancelled(s, v), w)
  {
    assert s.outcomes[v := Cancelled][w := Cancelled] == s.outcomes[w := Cancelled][v := Cancelled];
  }

  /** No event of others can tell whether a caller has given up. */
  lemma StepAfterCancel(s: State, w: nat, e: Event)
    requires Inv(s) && Enabled(s, e) && w < |s.callers| && e != Cancel(w)
    ensures Inv(WithCancelled(s, w)) && Enabled(WithCancelled(s, w), e)
    ensures w < |Step(s, e).callers| && Step(WithCancelled(s, w), e) == WithCancelled(Step(s, e), w)
  {
    WithCancelledKeepsInv(s, w);
    StepOnlyExtends(s, e);
    match e {
      case Arrive(request, key, priority) => ArriveAfterCancel(s, w, request, key, priority);
      case Cancel(v) => CancelAfterCancel(s, w, v);
      case Start(now) => TakeAfterCancel(s, w, now);
      case Wake(_) =>
      case Finish(ok, now, again) =>
        CompleteKeepsCore(s, ok, now);
        FinishAfterCancel(s, w, ok, now, again);
    }
  }

  lemma {:induction false} RunAfterCancel(s: State, w: nat, es: seq<Event>, t: State)
    requires Inv(s) && w < |s.callers| && Run(s, es, t) && Cancel(w) !in es
    ensures Inv(WithCancelled(s, w)) && Run(WithCancelled(s, w), es, WithCancelled(t, w))
    decreases |es|
  {
    WithCancelledKeepsInv(s, w);
    if es != [] {
      StepKeepsInv(s, es[0]);
      StepAfterCancel(s, w, es[0]);
      RunAfterCancel(Step(s, es[0]), w, es[1..], t);
    }
  }

  /** A caller who gives up changes nothing but its own outcome, then and ever after: the call it joined is
      sent just the same, and everybody else is answered just the same. */
  lemma CancelIsIsolated(s: State, w: nat, es: seq<Event>, t: State)
    requires Inv(s) && Enabled(s, Cancel(w)) && Run(s, es, t) && Cancel(w) !in es
    ensures Run(s, [Cancel(w)] + es, t.(outcomes := t.outcomes[w := Cancelled]))
  {
    StepKeepsInv(s, Cancel(w));
    RunAfterCancel(s, w, es, t);
    RunCons(s, Cancel(w), es, WithCancelled(t, w));
  }

  // ---------- when it is sent ----------

  /** A send starts at the clock reading of the event that starts it. */
  lemma SendStartsNow(s: State, e: Event)
    requires Inv(s) && Enabled(s, e) && Step(s, e).worker.Sending? && Step(s, e).worker.Current() != s.worker.Current()
    ensures e.Start? || e.Finish?
    ensures Step(s, e).worker.startedAt == Step(s, e).clock == if e.Start? then e.now else e.again
  {
    StepKeepsInv(s, e);
  }

  /** A paced send starts when the worker wakes. */
  lemma WakeStartsSend(s: State, now: real)
    requires Inv(s) && Enabled(s, Wake(now))
    ensures var t := Step(s, Wake(now));
      && t.worker.Sending? && t.worker.order == s.worker.order && t.worker.startedAt == now == t.clock
      && (t.queue, t.calls, t.pending, t.outcomes, t.sends) == (s.queue, s.calls, s.pending, s.outcomes, s.sends)
  {
  }

  /** A new pool counts its first interval from clock zero; a negative interval counts as zero. */
  lemma FirstTurn(interval: real, clock: real, request: Request, key: Option<Key>, priority: int, now: real) returns (t: State)
    requires clock <= now
    ensures RunFromEmpty(interval, clock, [Arrive(request, key, priority), Start(now)], t)
    ensures var pause := if interval < 0.0 then 0.0 else interval;
      t.worker == if now < pause then Sleeping(1, pause, 1) else Sending(1, now, 1)
    ensures t.queue == [] && t.calls == map[1 := Call(priority, 1, request, key, [0])]
    ensures t.callers == [Caller(request, key, priority, 1)] && t.sends == [] && t.outcomes == map[]
  {
    var s, arrive := Init(interval, clock), Arrive(request, key, priority);
    InitIsInv(interval, clock);
    FirstArrival(s, request, key, priority);
    OnlyCallTaken(OnArrive(s, request, key, priority), now);
    t := RunTwo(s, arrive, Start(now));
  }

  lemma FirstArrival(s: State, request: Request, key: Option<Key>, priority: int)
    requires s.pending == map[] && s.calls == map[] && s.callers == [] && s.queue == [] && s.order == 0 && s.worker.Idle?
    ensures var t := OnArrive(s, request, key, priority);
      && t.queue == [1] && t.calls == map[1 := Call(priority, 1, request, key, [0])] && t.order == 1 && t.worker.Ready?
      && t.callers == [Caller(request, key, priority, 1)] && t.clock == s.clock
      && (t.sends, t.outcomes, t.lastSentAt, t.interval) == (s.sends, s.outcomes, s.lastSentAt, s.interval)
  {
  }

  lemma OnlyCallTaken(s: State, now: real)
    requires s.queue == [1] && 1 in s.calls && s.lastSentAt == 0.0
    ensures TakeNext(s, now) == s.(
      queue := [], clock := now,
      worker := if now < s.interval then Sleeping(1, s.interval, s.order) else Sending(1, now, s.order))
  {
  }
}
