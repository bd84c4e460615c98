/** What every run of the service call pool keeps, read off the invariant. */
module CallPoolRuns {
  import opened Wrappers
  import opened CallPool

  lemma InitIsInv(interval: real, clock: real)
    ensures Inv(Init(interval, clock))
  {
  }

  /** `es` can happen one after the other from `s`, and ends in `t`. */
  ghost predicate Run(s: State, es: seq<Event>, t: State)
    requires Inv(s)
    decreases |es|
  {
    if es == [] then s == t
    else Enabled(s, es[0]) && (StepKeepsInv(s, es[0]); Run(Step(s, es[0]), es[1..], t))
  }

  lemma {:induction false} RunKeepsInv(s: State, es: seq<Event>, t: State)
    requires Inv(s) && Run(s, es, t)
    ensures Inv(t)
    decreases |es|
  {
    if es != [] {
      StepKeepsInv(s, es[0]);
      RunKeepsInv(Step(s, es[0]), es[1..], t);
    }
  }

  /** States some run from an empty pool ends in. */
  ghost predicate Reachable(s: State) {
    exists interval: real, clock: real, es :: RunFromEmpty(interval, clock, es, s)
  }

  ghost predicate RunFromEmpty(interval: real, clock: real, es: seq<Event>, s: State) {
    InitIsInv(interval, clock);
    Run(Init(interval, clock), es, s)
  }

  /** The invariant holds after every run from an empty pool. */
  lemma ReachableIsInv(s: State)
    requires Reachable(s)
    ensures Inv(s)
  {
    var interval: real, clock: real, es :| RunFromEmpty(interval, clock, es, s);
    InitIsInv(interval, clock);
    RunKeepsInv(Init(interval, clock), es, s);
  }

  // ---------- callers ----------

  function Below(n: nat): (r: set<nat>)
    ensures forall x: nat :: x in r <==> x < n
    ensures |r| == n
  {
    if n == 0 then {} else Below(n - 1) + {n - 1}
  }

  /** Callers still waiting. */
  function Waiting(s: State): set<nat> {
    Below(|s.callers|) - s.outcomes.Keys
  }

  lemma WaitsInItsCall(s: State, w: nat)
    requires Inv(s) && w < |s.callers|
    ensures w in s.outcomes || (
      && s.callers[w].ticket in s.calls
      && (forall o :: o in s.calls ==> (w in s.calls[o].waiters <==> o == s.callers[w].ticket))
      && s.calls[s.callers[w].ticket].key == s.callers[w].key
      && !s.worker.Idle?)
  {
    assert Placed(w, s.callers[w], s.calls, w in s.outcomes, s.order);
    forall o | o in s.calls && w in s.calls[o].waiters
      ensures o == s.callers[w].ticket
    {
      assert WaitersJoined(s.calls[o], s.callers);
    }
  }

  /** After every run each caller ever issued is answered, cancelled or waiting in exactly one live call,
      the one it joined, which has its key; and then a worker is alive. */
  lemma NoCallerLost(s: State, w: nat)
    requires Reachable(s) && w < |s.callers|
    ensures w in s.outcomes || (
      && s.callers[w].ticket in s.calls
      && (forall o :: o in s.calls ==> (w in s.calls[o].waiters <==> o == s.callers[w].ticket))
      && s.calls[s.callers[w].ticket].key == s.callers[w].key
      && !s.worker.Idle?)
  {
    ReachableIsInv(s);
    WaitsInItsCall(s, w);
  }

  /** Callers issued = callers with an outcome + callers waiting. */
  lemma CallersAddUp(s: State)
    requires Reachable(s)
    ensures |s.callers| == |s.outcomes| + |Waiting(s)|
  {
    ReachableIsInv(s);
    SplitByOutcome(s);
  }

  lemma SplitByOutcome(s: State)
    requires OutcomeInv(s)
    ensures |s.callers| == |s.outcomes| + |Waiting(s)|
  {
    assert |s.outcomes| == |s.outcomes.Keys|;
    SplitSize(Below(|s.callers|), s.outcomes.Keys);
  }

  lemma SplitSize(all: set<nat>, part: set<nat>)
    requires part <= all
    ensures |all| == |part| + |all - part|
  {
    assert all == part + (all - part);
  }

  lemma StepOnlyExtends(s: State, e: Event)
    requires Inv(s) && Enabled(s, e)
    ensures var t := Step(s, e);
      && s.callers <= t.callers && s.sends <= t.sends
      && forall w :: w in s.outcomes ==> w in t.outcomes && t.outcomes[w] == s.outcomes[w]
  {
  }

  /** Over whole runs an outcome, once given, never changes, so no caller is answered twice; callers
      and sends are only added. */
  lemma {:induction false} OutcomesAreFinal(s: State, es: seq<Event>, t: State)
    requires Inv(s) && Run(s, es, t)
    ensures s.callers <= t.callers && s.sends <= t.sends
    ensures forall w :: w in s.outcomes ==> w in t.outcomes && t.outcomes[w] == s.outcomes[w]
    decreases |es|
  {
    if es != [] {
      StepKeepsInv(s, es[0]);
      StepOnlyExtends(s, es[0]);
      OutcomesAreFinal(Step(s, es[0]), es[1..], t);
    }
  }

  /** A result or exception comes from exactly one send, that of the call the caller joined, which had
      the caller's key (and, without a key, its very request): a result if it succeeded, an exception if
      it failed. */
  lemma AnswersMatchKeys(s: State, w: nat)
    requires Reachable(s) && w in s.outcomes && !s.outcomes[w].Cancelled?
    ensures w < |s.callers| && s.outcomes[w].send < |s.sends|
    ensures s.sends[s.outcomes[w].send].ok <==> s.outcomes[w].Answered?
    ensures s.sends[s.outcomes[w].send].key == s.callers[w].key
    ensures s.callers[w].key.None? ==> s.sends[s.outcomes[w].send].request == s.callers[w].request
    ensures forall j :: 0 <= j < |s.sends| && s.sends[j].order == s.callers[w].ticket ==> j == s.outcomes[w].send
  {
    ReachableIsInv(s);
    assert RightAnswer(s.outcomes[w], s.callers[w], s.sends);
  }

  /** Two callers without a key never share a result or an exception. */
  lemma KeylessAnswersAreSeparate(s: State, w: nat, v: nat)
    requires Reachable(s) && w < v && w in s.outcomes && v in s.outcomes
    requires !s.outcomes[w].Cancelled? && !s.outcomes[v].Cancelled? && s.outcomes[w].send == s.outcomes[v].send
    ensures v < |s.callers| && s.callers[w].key.Some? && s.callers[w].key == s.callers[v].key
  {
    ReachableIsInv(s);
    AnswersMatchKeys(s, w);
    AnswersMatchKeys(s, v);
    assert RightAnswer(s.outcomes[w], s.callers[w], s.sends) && RightAnswer(s.outcomes[v], s.callers[v], s.sends);
  }

  /** A caller whose key is live joins that call and changes nothing else; any other caller adds one call
      of its own, with its request, key and priority, behind everything enqueued before. */
  lemma ArrivalJoinsOrEnqueues(s: State, request: Request, key: Option<Key>, priority: int)
    requires Reachable(s)
    ensures Inv(s)
    ensures var t, w := Step(s, Arrive(request, key, priority)), |s.callers|;
      && (t.sends, t.outcomes, t.lastSentAt) == (s.sends, s.outcomes, s.lastSentAt)
      && |t.callers| == w + 1 && t.callers[..w] == s.callers
      && var o := t.callers[w].ticket;
      && t.callers[w] == Caller(request, key, priority, o)
      && o in t.calls && w in t.calls[o].waiters
      && (forall q :: q in s.calls && q != o ==> q in t.calls && t.calls[q] == s.calls[q])
      && if exists q :: q in s.calls && key.Some? && s.calls[q].key == key
         then o in s.calls && s.calls[o].key == key && t.queue == s.queue && t.worker == s.worker && t.pending == s.pending
           && t.calls[o] == s.calls[o].(waiters := s.calls[o].waiters + [w])
         else o !in s.calls && t.queue == s.queue + [o] && t.calls[o] == Call(priority, o, request, key, [w])
  {
    ReachableIsInv(s);
    ArrivalCases(s, request, key, priority);
  }

  lemma ArrivalCases(s: State, request: Request, key: Option<Key>, priority: int)
    requires QueueInv(s) && PendingInv(s)
    ensures var t, w := OnArrive(s, request, key, priority), |s.callers|;
      && |t.callers| == w + 1 && t.callers[..w] == s.callers
      && var o := t.callers[w].ticket;
      && t.callers[w] == Caller(request, key, priority, o)
      && o in t.calls && w in t.calls[o].waiters
      && (forall q :: q in s.calls && q != o ==> q in t.calls && t.calls[q] == s.calls[q])
      && if exists q :: q in s.calls && key.Some? && s.calls[q].key == key
         then o in s.calls && s.calls[o].key == key && t.queue == s.queue && t.worker == s.worker && t.pending == s.pending
           && t.calls[o] == s.calls[o].(waiters := s.calls[o].waiters + [w])
         else o !in s.calls && t.queue == s.queue + [o] && t.calls[o] == Call(priority, o, request, key, [w])
  {
    var t, w := OnArrive(s, request, key, priority), |s.callers|;
    if key.Some? && key.value in s.pending {
      var o := s.pending[key.value];
      assert s.calls[o].key == key;
      assert t.calls[o].waiters[|s.calls[o].waiters|] == w;
    }
  }

  /** At most one live call per key. */
  lemma OneLiveCallPerKey(s: State, o: nat, q: nat)
    requires Reachable(s) && o in s.calls && q in s.calls && s.calls[o].key.Some? && s.calls[o].key == s.calls[q].key
    ensures o == q
  {
    ReachableIsInv(s);
  }

  // ---------- failing sends ----------

  /** When a send ends, failed or not, its own call leaves the pool with its key, every other live call
      and key stays as it was, and of the callers without an outcome exactly those of this call get one:
      the result, or the exception if it failed. */
  lemma FinishTouchesOneCall(s: State, ok: bool, now: real, again: real)
    requires Inv(s) && Enabled(s, Finish(ok, now, again))
    ensures var t, o := Step(s, Finish(ok, now, again)), s.worker.order;
      && o in s.calls && t.calls == s.calls - {o}
      && |t.sends| == |s.sends| + 1 && t.sends[..|s.sends|] == s.sends && t.lastSentAt == now
      && var sent := t.sends[|s.sends|];
      && (sent.order, sent.start, sent.end, sent.ok) == (o, s.worker.startedAt, now, ok)
      && (forall k :: k in t.pending <==> k in s.pending && s.pending[k] != o)
      && (forall k :: k in t.pending ==> t.pending[k] == s.pending[k])
      && forall w: nat :: w < |s.callers| ==>
        if w in s.outcomes then w in t.outcomes && t.outcomes[w] == s.outcomes[w]
        else if s.callers[w].ticket == o
        then w in t.outcomes && t.outcomes[w] == if ok then Answered(|s.sends|) else Raised(|s.sends|)
        else w !in t.outcomes
  {
    var t, o := Complete(s, ok, now), s.worker.order;
    CompleteKeepsCore(s, ok, now);
    CompleteFreesKey(s, ok, now);
    forall w: nat | w < |s.callers| && w !in s.outcomes
      ensures w in t.outcomes <==> s.callers[w].ticket == o
    {
      WaitsInItsCall(s, w);
    }
  }

  lemma CompleteFreesKey(s: State, ok: bool, now: real)
    requires QueueInv(s) && PendingInv(s) && s.worker.Sending?
    ensures var t := Complete(s, ok, now);
      && (forall k :: k in t.pending <==> k in s.pending && s.pending[k] != s.worker.order)
      && (forall k :: k in t.pending ==> t.pending[k] == s.pending[k])
  {
  }

  function AfterFailure(outcome: Outcome, n: nat): Outcome {
    if outcome == Answered(n) then Raised(n) else outcome
  }

  /** The state that differs from `s` only in that send `n` failed: its record says so, and who had its
      result has its exception instead. */
  function WithFailure(s: State, n: nat): State
    requires n < |s.sends|
  {
    s.(sends := s.sends[n := s.sends[n].(ok := false)],
       outcomes := map w | w in s.outcomes :: AfterFailure(s.outcomes[w], n))
  }

  lemma WithFailureKeepsInv(s: State, n: nat)
    requires Inv(s) && n < |s.sends|
    ensures Inv(WithFailure(s, n))
  {
    FailureKeepsCallers(s, n);
    FailureKeepsOutcomes(s, n);
    FailureKeepsHistory(s, n);
  }

  lemma FailureKeepsOutcomes(s: State, n: nat)
    requires OutcomeInv(s) && n < |s.sends|
    ensures OutcomeInv(WithFailure(s, n))
  {
    var t := WithFailure(s, n);
    forall w | w in t.outcomes
      ensures w < |t.callers| && RightAnswer(t.outcomes[w], t.callers[w], t.sends)
    {
      assert RightAnswer(s.outcomes[w], s.callers[w], s.sends);
    }
  }

  lemma FailureKeepsHistory(s: State, n: nat)
    requires SendInv(s) && FairInv(s) && TimeInv(s) && n < |s.sends|
    ensures SendInv(WithFailure(s, n)) && FairInv(WithFailure(s, n)) && TimeInv(WithFailure(s, n))
  {
    var t := WithFailure(s, n);
    assert forall i :: 0 <= i < |t.sends| ==>
      var a, b := t.sends[i], s.sends[i]; (a.priority, a.order, a.start, a.end) == (b.priority, b.order, b.start, b.end);
    FailureKeepsFair(s, n);
  }

  lemma FailureKeepsFair(s: State, n: nat)
    requires FairInv(s) && n < |s.sends|
    ensures FairInv(WithFailure(s, n))
  {
  }

  lemma FailureKeepsCallers(s: State, n: nat)
    requires CallerInv(s) && n < |s.sends|
    ensures CallerInv(WithFailure(s, n))
  {
    var t := WithFailure(s, n);
    forall w: nat | w < |t.callers|
      ensures Placed(w, t.callers[w], t.calls, w in t.outcomes, t.order)
    {
      assert Placed(w, s.callers[w], s.calls, w in s.outcomes, s.order);
    }
  }

  lemma CompleteAfterFailure(s: State, n: nat, ok: bool, now: real)
    requires n < |s.sends| && s.worker.Sending? && s.worker.order in s.calls
    ensures Complete(WithFailure(s, n), ok, now) == WithFailure(Complete(s, ok, now), n)
  {
    var a, b := Complete(WithFailure(s, n), ok, now), WithFailure(Complete(s, ok, now), n);
    assert a.sends == b.sends;
    assert a.outcomes == b.outcomes;
  }

  lemma TakeAfterFailure(s: State, n: nat, now: real)
    requires n < |s.sends| && forall o :: o in s.queue ==> o in s.calls
    ensures |TakeNext(s, now).sends| == |s.sends|
    ensures TakeNext(WithFailure(s, n), now) == WithFailure(TakeNext(s, now), n)
  {
  }

  lemma ArriveAfterFailure(s: State, n: nat, request: Request, key: Option<Key>, priority: int)
    requires n < |s.sends| && forall k :: k in s.pending ==> s.pending[k] in s.calls
    ensures OnArrive(WithFailure(s, n), request, key, priority) == WithFailure(OnArrive(s, request, key, priority), n)
  {
  }

  lemma CancelAfterFailure(s: State, n: nat, w: nat)
    requires n < |s.sends|
    ensures WithFailure(s, n).outcomes[w := Cancelled] == WithFailure(s.(outcomes := s.outcomes[w := Cancelled]), n).outcomes
  {
  }

  lemma FinishAfterFailure(s: State, n: nat, ok: bool, now: real, again: real)
    requires Core(s) && s.worker.Sending? && n < |s.sends|
    requires Core(Complete(s, ok, now))
    ensures QueueInv(Complete(WithFailure(s, n), ok, now))
    ensures n < |TakeNext(Complete(s, ok, now), again).sends|
    ensures TakeNext(Complete(WithFailure(s, n), ok, now), again) == WithFailure(TakeNext(Complete(s, ok, now), again), n)
  {
    CompleteAfterFailure(s, n, ok, now);
    TakeAfterFailure(Complete(s, ok, now), n, again);
  }

  /** No later event can tell whether an earlier send failed. */
  lemma StepAfterFailure(s: State, n: nat, e: Event)
    requires Inv(s) && Enabled(s, e) && n < |s.sends|
    ensures Inv(WithFailure(s, n)) && Enabled(WithFailure(s, n), e)
    ensures n < |Step(s, e).sends| && Step(WithFailure(s, n), e) == WithFailure(Step(s, e), n)
  {
    WithFailureKeepsInv(s, n);
    match e {
      case Arrive(request, key, priority) => ArriveAfterFailure(s, n, request, key, priority);
      case Cancel(w) => CancelAfterFailure(s, n, w);
      case Start(now) => TakeAfterFailure(s, n, now);
      case Wake(_) =>
      case Finish(ok, now, again) =>
        CompleteKeepsCore(s, ok, now);
        FinishAfterFailure(s, n, ok, now, again);
    }
  }

  lemma {:induction false} RunAfterFailure(s: State, n: nat, es: seq<Event>, t: State)
    requires Inv(s) && n < |s.sends| && Run(s, es, t)
    ensures Inv(WithFailure(s, n)) && n < |t.sends|
    ensures Run(WithFailure(s, n), es, WithFailure(t, n))
    decreases |es|
  {
    WithFailureKeepsInv(s, n);
    if es != [] {
      StepKeepsInv(s, es[0]);
      StepAfterFailure(s, n, es[0]);
      RunAfterFailure(Step(s, es[0]), n, es[1..], t);
    }
  }

  lemma FailingFinish(s: State, now: real, again: real)
    requires Inv(s) && Enabled(s, Finish(true, now, again))
    ensures Enabled(s, Finish(false, now, again))
    ensures |Step(s, Finish(true, now, again)).sends| == |s.sends| + 1
    ensures Step(s, Finish(false, now, again)) == WithFailure(Step(s, Finish(true, now, again)), |s.sends|)
  {
    CompleteKeepsCore(s, true, now);
    CompleteKeepsCore(s, false, now);
    CompleteFails(s, now);
    TakeAfterFailure(Complete(s, true, now), |s.sends|, again);
  }

  lemma CompleteFails(s: State, now: real)
    requires OutcomeInv(s) && s.worker.Sending? && s.worker.order in s.calls
    ensures |Complete(s, true, now).sends| == |s.sends| + 1
    ensures Complete(s, false, now) == WithFailure(Complete(s, true, now), |s.sends|)
  {
    var good, bad := Complete(s, true, now), Complete(s, false, now);
    forall w | w in s.outcomes
      ensures s.outcomes[w] != Answered(|s.sends|)
    {
      assert RightAnswer(s.outcomes[w], s.callers[w], s.sends);
    }
    assert bad.sends == WithFailure(good, |s.sends|).sends;
    assert bad.outcomes == WithFailure(good, |s.sends|).outcomes;
  }

  /** A failing send leaves the rest of the pool intact, then and ever after: had the send failed, the
      same events could have followed, and they would have led to the same queue, calls, keys, worker,
      times and callers. Only the send's record and its own waiters' outcomes are different. */
  lemma FailureIsIsolated(s: State, now: real, again: real, es: seq<Event>, t: State)
    requires Inv(s) && Run(s, [Finish(true, now, again)] + es, t)
    ensures |s.sends| < |t.sends|
    ensures Run(s, [Finish(false, now, again)] + es, WithFailure(t, |s.sends|))
  {
    var good, bad := Finish(true, now, again), Finish(false, now, again);
    RunUncons(s, good, es, t);
    StepKeepsInv(s, bad);
    FailingFinish(s, now, again);
    RunAfterFailure(Step(s, good), |s.sends|, es, t);
    RunCons(s, bad, es, WithFailure(t, |s.sends|));
  }

  // ---------- order ----------

  /** Over whole runs a call is overtaken only by strictly more urgent ones; so calls of equal priority
      are sent in enqueue order. */
  lemma OvertakenOnlyByUrgent(s: State, i: nat, j: nat)
    requires Reachable(s) && i < j < |s.sends|
    ensures s.sends[i].order > s.sends[j].order ==> s.sends[i].priority < s.sends[j].priority
    ensures s.sends[i].priority == s.sends[j].priority ==> s.sends[i].order < s.sends[j].order
  {
    ReachableIsInv(s);
    assert s.sends[i].order != s.sends[j].order;
  }

  /** At the moment a call is taken nothing queued is preferred to it. */
  lemma TakenCallIsLeast(s: State, now: real, q: nat)
    requires Core(s) && s.worker.Ready? && s.clock <= now && q in TakeNext(s, now).queue
    ensures TakeNext(s, now).worker.Current().Some?
    ensures q in s.calls && TakeNext(s, now).worker.order in s.calls
    ensures Before(s.calls[TakeNext(s, now).worker.order], s.calls[q])
  {
    var i := LeastIndex(s.queue, s.calls);
    assert s.queue[i] in s.queue;
    TakenIsLeast(s, i, q);
  }

  /** A send that starts at once, because the interval has passed, leaves nothing preferred queued; a
      preferred call can only be queued at the start of a send that was paced. */
  lemma UnpacedSendIsLeast(s: State, now: real)
    requires Core(s) && s.worker.Ready? && s.queue != [] && s.clock <= now
    ensures var t := TakeNext(s, now);
      && (t.worker.Sending? <==> s.lastSentAt + s.interval <= now)
      && (t.worker.Sleeping? <==> now < s.lastSentAt + s.interval)
      && t.worker.order in t.calls
      && forall q :: q in t.queue ==> q in t.calls && Before(t.calls[t.worker.order], t.calls[q])
  {
    var t := TakeNext(s, now);
    TakeNextKeepsQueue(s, now);
    forall q | q in t.queue
      ensures Before(t.calls[t.worker.order], t.calls[q])
    {
      TakenCallIsLeast(s, now, q);
    }
  }

  /** What later states keep of live calls: their priorities; no old call comes back; the current call
      stays so until it leaves; and a new current call was taken with everything in view. */
  ghost predicate Follows(s: State, t: State) {
    && s.order <= t.order
    && (forall q :: q in s.calls && q in t.calls ==> t.calls[q].priority == s.calls[q].priority)
    && (forall q :: q in t.calls && q <= s.order ==> q in s.calls)
    && (s.worker.Current().Some? && s.worker.Current().value in t.calls ==>
        t.worker.Current() == s.worker.Current() && t.worker.seen == s.worker.seen)
    && (t.worker.Current().Some? && t.worker.Current() != s.worker.Current() ==> t.worker.seen >= s.order)
  }

  lemma ArriveFollows(s: State, request: Request, key: Option<Key>, priority: int)
    requires QueueInv(s) && PendingInv(s)
    ensures Follows(s, OnArrive(s, request, key, priority))
  {
  }

  lemma TakeFollows(s: State, now: real)
    requires QueueInv(s) && s.worker.Ready?
    ensures Follows(s, TakeNext(s, now))
  {
  }

  lemma FinishFollows(s: State, ok: bool, now: real, again: real)
    requires QueueInv(s) && PendingInv(s) && s.worker.Sending?
    requires QueueInv(Complete(s, ok, now))
    ensures Follows(s, TakeNext(Complete(s, ok, now), again))
  {
    TakeNextKeepsQueue(Complete(s, ok, now), again);
  }

  lemma StepFollows(s: State, e: Event)
    requires Inv(s) && Enabled(s, e)
    ensures Follows(s, Step(s, e))
  {
    match e {
      case Arrive(request, key, priority) => ArriveFollows(s, request, key, priority);
      case Cancel(_) =>
      case Start(now) => TakeFollows(s, now);
      case Wake(_) =>
      case Finish(ok, now, again) =>
        CompleteKeepsCore(s, ok, now);
        FinishFollows(s, ok, now, again);
    }
  }

  lemma FollowsFollows(s: State, u: State, t: State)
    requires QueueInv(s) && QueueInv(u) && QueueInv(t) && Follows(s, u) && Follows(u, t)
    ensures Follows(s, t)
  {
  }

  lemma {:induction false} RunFollows(s: State, es: seq<Event>, t: State)
    requires Inv(s) && Run(s, es, t)
    ensures Inv(t) && Follows(s, t)
    decreases |es|
  {
    if es != [] {
      StepKeepsInv(s, es[0]);
      StepFollows(s, es[0]);
      RunFollows(Step(s, es[0]), es[1..], t);
      FollowsFollows(s, Step(s, es[0]), t);
    }
  }

  /** The current call is behind a queued one exactly when that one is more urgent and was enqueued after
      the current one was taken. */
  lemma PreferredIsLate(t: State, o: nat, q: nat)
    requires QueueInv(t) && FairInv(t) && t.worker.Current() == Some(o) && q in t.queue
    ensures o in t.calls && q in t.calls && q != o
    ensures Before(t.calls[q], t.calls[o]) <==> q > t.worker.seen && t.calls[q].priority < t.calls[o].priority
  {
  }

  /** While a call is in flight, a queued one is preferred to it exactly if that one was enqueued after
      the other was taken, when `s.order` calls had been, and is more urgent. */
  lemma PreferredAfterTaking(s: State, now: real, es: seq<Event>, t: State, q: nat)
    requires Core(s) && s.worker.Ready? && s.queue != [] && s.clock <= now
    requires Inv(TakeNext(s, now)) && Run(TakeNext(s, now), es, t)
    requires t.worker.Current() == TakeNext(s, now).worker.Current() && q in t.queue
    ensures t.worker.Current().Some? && t.worker.order in t.calls && q in t.calls
    ensures Before(t.calls[q], t.calls[t.worker.order]) <==>
            q > s.order && t.calls[q].priority < t.calls[t.worker.order].priority
  {
    var u := TakeNext(s, now);
    TakingSeesAll(s, now);
    RunFollows(u, es, t);
    PreferredIsLate(t, t.worker.order, q);
  }

  lemma TakingSeesAll(s: State, now: real)
    requires s.queue != [] && forall o :: o in s.queue ==> o in s.calls
    ensures TakeNext(s, now).worker.Current().Some? && TakeNext(s, now).worker.seen == s.order
  {
  }

  /** Who waits behind a less preferred call, and behind which: over the whole time a new call is queued,
      the call in flight is less preferred exactly if it was in flight already when the new one arrived,
      and is less urgent. */
  lemma UrgentCallWaitsOnlyIfLate(
      s: State, request: Request, key: Option<Key>, priority: int, es: seq<Event>, t: State, o: nat)
    requires Inv(s) && (key.Some? ==> key.value !in s.pending)
    requires Run(s, [Arrive(request, key, priority)] + es, t)
    requires s.order + 1 in t.queue && t.worker.Current() == Some(o)
    ensures s.order + 1 in t.calls && o in t.calls
    ensures Before(t.calls[s.order + 1], t.calls[o]) <==>
            s.worker.Current() == Some(o) && o in s.calls && priority < s.calls[o].priority
  {
    RunUncons(s, Arrive(request, key, priority), es, t);
    NewCall(s, request, key, priority);
    PreferredSinceArrival(OnArrive(s, request, key, priority), es, t, o);
  }

  lemma NewCall(s: State, request: Request, key: Option<Key>, priority: int)
    requires QueueInv(s) && PendingInv(s) && FairInv(s) && (key.Some? ==> key.value !in s.pending)
    ensures var u := OnArrive(s, request, key, priority);
      && u.order == s.order + 1 && u.order in u.calls && u.calls[u.order].priority == priority
      && u.worker.Current() == s.worker.Current()
      && (u.worker.Current().Some? ==> u.worker.seen < u.order)
      && forall o :: o in u.calls && o != u.order ==> o in s.calls && u.calls[o] == s.calls[o]
  {
  }

  lemma PreferredSinceArrival(u: State, es: seq<Event>, t: State, o: nat)
    requires Inv(u) && Run(u, es, t) && u.order in u.calls && u.order in t.queue && t.worker.Current() == Some(o)
    requires u.worker.Current().Some? ==> u.worker.seen < u.order
    ensures u.order in t.calls && o in t.calls
    ensures Before(t.calls[u.order], t.calls[o]) <==>
            u.worker.Current() == Some(o) && o in u.calls && u.calls[u.order].priority < u.calls[o].priority
  {
    RunFollows(u, es, t);
    PreferredIsLate(t, o, u.order);
  }

  /** So at most one call goes first: one that is taken while another waits is preferred to it. */
  lemma OnlyOneGoesFirst(s: State, es: seq<Event>, t: State, q: nat, o: nat)
    requires Inv(s) && Run(s, es, t)
    requires q in s.queue && q in t.queue && t.worker.Current() == Some(o) && s.worker.Current() != Some(o)
    ensures q in t.calls && o in t.calls && Before(t.calls[o], t.calls[q])
  {
    RunFollows(s, es, t);
    PreferredIsLate(t, o, q);
  }

  /** At the arrival itself: the new call is queued behind a less preferred call exactly if it is more
      urgent than the one in flight. */
  lemma ArrivalBehindLessUrgent(s: State, request: Request, key: Option<Key>, priority: int)
    requires Inv(s) && (key.Some? ==> key.value !in s.pending)
    ensures var t, q := Step(s, Arrive(request, key, priority)), s.order + 1;
      && q in t.queue && q in t.calls
      && ((exists o :: o in t.calls && t.worker.Current() == Some(o) && Before(t.calls[q], t.calls[o])) <==>
          exists o :: o in s.calls && s.worker.Current() == Some(o) && priority < s.calls[o].priority)
  {
    var t, q := Step(s, Arrive(request, key, priority)), s.order + 1;
    assert t.queue[|s.queue|] == q;
    if o :| o in s.calls && s.worker.Current() == Some(o) {
      assert q !in s.calls && t.calls[o] == s.calls[o];
    }
  }

  /** The pacing sleep comes after the choice, so a call enqueued during it is not considered: whenever
      the worker paces, a strictly more urgent arrival is still queued when the current call's send
      starts. */
  lemma UrgentArrivalDuringPacing(s: State, request: Request, key: Option<Key>, priority: int, now: real) returns (t: State)
    requires Inv(s) && s.worker.Sleeping? && s.clock <= now && s.worker.until <= now
    requires s.worker.order in s.calls && priority < s.calls[s.worker.order].priority
    requires key.Some? ==> key.value !in s.pending
    ensures Run(s, [Arrive(request, key, priority), Wake(now)], t)
    ensures t.worker.Sending? && t.worker.order == s.worker.order && t.worker.startedAt == now
    ensures s.order + 1 in t.queue && s.order + 1 in t.calls && t.worker.order in t.calls
    ensures Before(t.calls[s.order + 1], t.calls[t.worker.order])
  {
    LateArrivalIsQueued(s, request, key, priority);
    t := RunTwo(s, Arrive(request, key, priority), Wake(now));
  }

  lemma LateArrivalIsQueued(s: State, request: Request, key: Option<Key>, priority: int)
    requires Inv(s) && s.worker.Sleeping? && s.worker.order in s.calls && priority < s.calls[s.worker.order].priority
    requires key.Some? ==> key.value !in s.pending
    ensures var t := OnArrive(s, request, key, priority);
      && t.worker == s.worker && t.clock == s.clock
      && s.order + 1 in t.queue && s.order + 1 in t.calls && t.worker.order in t.calls
      && Before(t.calls[s.order + 1], t.calls[t.worker.order])
  {
    var t := OnArrive(s, request, key, priority);
    assert t.queue[|s.queue|] == s.order + 1;
  }

  lemma RunTwo(s: State, first: Event, second: Event) returns (t: State)
    requires Inv(s) && Enabled(s, first)
    requires Enabled(Step(s, first), second)
    ensures Inv(Step(s, first)) && t == Step(Step(s, first), second) && Run(s, [first, second], t)
  {
    StepKeepsInv(s, first);
    t := RunOne(Step(s, first), second);
    RunCons(s, first, [second], t);
    assert [first] + [second] == [first, second];
  }

  lemma RunOne(s: State, e: Event) returns (t: State)
    requires Inv(s) && Enabled(s, e)
    ensures t == Step(s, e) && Run(s, [e], t)
  {
    StepKeepsInv(s, e);
    t := Step(s, e);
    RunCons(s, e, [], t);
    assert [e] + [] == [e];
  }

  /** And the worker does pace: whatever the clock says at the start, a first or a second call, arriving
      within the interval after the first one's send, has to wait. */
  lemma PacingIsReachable(interval: real, clock: real, request: Request) returns (es: seq<Event>, t: State)
    requires 0.0 < interval
    ensures RunFromEmpty(interval, clock, es, t) && Reachable(t) && t.worker.Sleeping?
  {
    InitIsInv(interval, clock);
    es, t := FirstCallPaces(Init(interval, clock), request);
    assert RunFromEmpty(interval, clock, es, t);
  }

  lemma FirstCallPaces(s: State, request: Request) returns (es: seq<Event>, t: State)
    requires Inv(s) && s.worker.Idle? && 0.0 < s.interval
    ensures Run(s, es, t) && t.worker.Sleeping?
  {
    var arrive := Arrive(request, None, 10);
    var ready := Step(s, arrive);
    StepKeepsInv(s, arrive);
    var rest;
    rest, t := TurnOrNextPaces(ready, request);
    RunCons(s, arrive, rest, t);
    es := [arrive] + rest;
  }

  lemma TurnOrNextPaces(s: State, request: Request) returns (es: seq<Event>, t: State)
    requires Inv(s) && s.worker.Ready? && |s.queue| == 1 && 0.0 < s.interval
    ensures Run(s, es, t) && t.worker.Sleeping?
  {
    var start := Start(s.clock);
    var next := Step(s, start);
    StepKeepsInv(s, start);
    if next.worker.Sleeping? {
      t := RunOne(s, start);
      es := [start];
    } else {
      var rest;
      rest, t := SecondCallPaces(next, request);
      RunCons(s, start, rest, t);
      es := [start] + rest;
    }
  }

  /** A call that arrives within the interval after a finished send waits. */
  lemma SecondCallPaces(s: State, request: Request) returns (es: seq<Event>, t: State)
    requires Inv(s) && s.worker.Sending? && s.queue == [] && 0.0 < s.interval
    ensures Run(s, es, t) && t.worker.Sleeping?
  {
    var finish, arrive, start := Finish(true, s.clock, s.clock), Arrive(request, None, 10), Start(s.clock);
    var sent := Step(s, finish);
    StepKeepsInv(s, finish);
    ArrivalPaces(sent, request);
    t := RunTwo(sent, arrive, start);
    RunCons(s, finish, [arrive, start], t);
    es := [finish] + [arrive, start];
  }

  lemma ArrivalPaces(s: State, request: Request)
    requires Inv(s) && s.worker.Idle? && s.clock < s.lastSentAt + s.interval
    ensures Enabled(Step(s, Arrive(request, None, 10)), Start(s.clock))
    ensures Inv(Step(s, Arrive(request, None, 10)))
    ensures Step(Step(s, Arrive(request, None, 10)), Start(s.clock)).worker.Sleeping?
  {
    StepKeepsInv(s, Arrive(request, None, 10));
    FirstTurnPaces(Step(s, Arrive(request, None, 10)), s.clock);
  }

  lemma FirstTurnPaces(s: State, now: real)
    requires s.queue != [] && forall o :: o in s.queue ==> o in s.calls
    ensures TakeNext(s, now).worker.Sleeping? <==> now - s.lastSentAt < s.interval
  {
  }

  lemma RunUncons(s: State, e: Event, es: seq<Event>, t: State)
    requires Inv(s) && Run(s, [e] + es, t)
    ensures Enabled(s, e) && Inv(Step(s, e)) && Run(Step(s, e), es, t)
  {
    assert ([e] + es)[0] == e && ([e] + es)[1..] == es;
    StepKeepsInv(s, e);
  }

  lemma RunCons(s: State, e: Event, es: seq<Event>, t: State)
    requires Inv(s) && Enabled(s, e) && Inv(Step(s, e)) && Run(Step(s, e), es, t)
    ensures Run(s, [e] + es, t)
  {
    assert ([e] + es)[1..] == es;
  }

  // ---------- pacing ----------

  /** The worker paces exactly when the interval has not passed yet, and then exactly until it has. */
  lemma TurnPacesExactly(s: State, now: real)
    requires Core(s) && s.worker.Ready? && s.queue != []
    ensures var t := TakeNext(s, now);
      && (t.worker.Sleeping? <==> now < s.lastSentAt + s.interval)
      && (t.worker.Sleeping? ==> t.worker.until == s.lastSentAt + s.interval)
      && (!t.worker.Sleeping? ==> t.worker.Sending? && t.worker.startedAt == now)
  {
  }

  /** Each send starts at least the minimum interval after the previous one ended. */
  lemma SendsArePaced(s: State, i: nat)
    requires Reachable(s) && i + 1 < |s.sends|
    ensures s.sends[i].end + s.interval <= s.sends[i + 1].start
  {
    ReachableIsInv(s);
  }

  /** So `n` sends span at least `n - 1` intervals, whatever arrived in between. */
  lemma SendsSpanIntervals(s: State, i: nat, j: nat)
    requires Reachable(s) && i <= j < |s.sends|
    ensures s.sends[j].start - s.sends[i].start >= Times(j - i, s.interval)
  {
    ReachableIsInv(s);
    SpanFrom(s, i, j);
  }

  /** `n` intervals. */
  function Times(n: nat, interval: real): real {
    n as real * interval
  }

  lemma OneMore(n: nat, interval: real)
    ensures Times(n + 1, interval) == Times(n, interval) + interval
  {
  }

  lemma {:induction false} SpanFrom(s: State, i: nat, j: nat)
    requires TimeInv(s) && i <= j < |s.sends|
    ensures s.sends[j].start - s.sends[i].start >= Times(j - i, s.interval)
    decreases j - i
  {
    if i < j {
      SpanFrom(s, i, j - 1);
      OneMore(j - 1 - i, s.interval);
    }
  }

  // ---------- progress ----------

  predicate WorkerEvent(e: Event) {
    e.Start? || e.Wake? || e.Finish?
  }

  /** An upper bound on the worker turns left. */
  function Work(s: State): nat {
    2 * |s.queue| + match s.worker
                    case Idle => 0
                    case Ready => 1
                    case Sleeping(_, _, _) => 2
                    case Sending(_, _, _) => 1
  }

  /** While somebody waits, some worker event can happen. */
  lemma WaitingMeansWorkerCanMove(s: State, w: nat)
    requires Inv(s) && w in Waiting(s)
    ensures exists e :: WorkerEvent(e) && Enabled(s, e)
  {
    WaitsInItsCall(s, w);
    var now := if s.worker.Sleeping? && s.worker.until > s.clock then s.worker.until else s.clock;
    match s.worker {
      case Ready => assert Enabled(s, Start(now)) && WorkerEvent(Start(now));
      case Sleeping(_, _, _) => assert Enabled(s, Wake(now)) && WorkerEvent(Wake(now));
      case Sending(_, _, _) => assert Enabled(s, Finish(true, now, now)) && WorkerEvent(Finish(true, now, now));
      case Idle => assert false;
    }
  }

  lemma WorkerEventUsesWork(s: State, e: Event)
    requires Inv(s) && Enabled(s, e) && WorkerEvent(e)
    ensures Work(Step(s, e)) < Work(s)
  {
    match e {
      case Start(now) => TakingUsesWork(s, now);
      case Wake(now) =>
      case Finish(ok, now, again) =>
        CompleteKeepsCore(s, ok, now);
        TakingUsesWork(Complete(s, ok, now), again);
    }
  }

  lemma TakingUsesWork(s: State, now: real)
    requires QueueInv(s) && s.worker.Ready?
    ensures Work(TakeNext(s, now)) <= 2 * |s.queue|
  {
  }

  /** Without new arrivals the worker answers everybody within `Work(s)` turns: no run of worker events
      is longer, and where no more can happen every caller has its outcome. */
  lemma {:induction false} QuietRunDrains(s: State, es: seq<Event>, t: State)
    requires Inv(s) && Run(s, es, t) && forall e :: e in es ==> WorkerEvent(e)
    ensures |es| + Work(t) <= Work(s)
    ensures (forall e :: WorkerEvent(e) ==> !Enabled(t, e)) ==> Waiting(t) == {}
    decreases |es|
  {
    if es == [] {
      if w :| w in Waiting(t) {
        WaitingMeansWorkerCanMove(t, w);
      }
    } else {
      StepKeepsInv(s, es[0]);
      WorkerEventUsesWork(s, es[0]);
      QuietRunDrains(Step(s, es[0]), es[1..], t);
    }
  }
}
