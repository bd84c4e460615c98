/** The pool object: its fields, updated in place between suspension points. Each method is one such
    stretch and is proved to be the corresponding step of the state machine. */
module ServiceCallPoolObject {
  import opened Wrappers
  import opened CallPool

  class ServiceCallPool {
    const minInterval: real
    var queue: seq<nat>
    var calls: map<nat, Call>
    var pendingByKey: map<Key, nat>
    var worker: Worker
    var lastSentAt: real
    var order: nat
    /** One future per caller, with what it was resolved to. */
    var callers: seq<Caller>
    var futures: map<nat, Outcome>
    /** The latest clock reading and the finished sends, kept for the specification. */
    ghost var clock: real
    var sends: seq<Send>

    ghost function View(): State
      reads this
    {
      State(minInterval, queue, calls, pendingByKey, worker, lastSentAt, order, clock, callers, futures, sends)
    }

    ghost predicate Valid()
      reads this
    {
      Inv(View())
    }

    constructor (interval: real, ghost now: real)
      ensures View() == Init(interval, now) && Valid()
    {
      minInterval := if interval < 0.0 then 0.0 else interval;
      queue, calls, pendingByKey := [], map[], map[];
      worker, lastSentAt, order := Idle, 0.0, 0;
      callers, futures, sends := [], map[], [];
      clock := now;
    }

    /** A caller arrives; `future` is what it awaits. */
    method AsyncCall(request: Request, key: Option<Key>, priority: int) returns (future: nat)
      requires Valid()
      modifies this
      ensures Valid() && View() == Step(old(View()), Arrive(request, key, priority))
      ensures future == |old(callers)|
    {
      StepKeepsInv(View(), Arrive(request, key, priority));
      future := |callers|;
      if key.Some? && key.value in pendingByKey {
        Join(request, key, priority);
      } else {
        Enqueue(request, key, priority);
      }
    }

    method Join(request: Request, key: Option<Key>, priority: int)
      requires forall k :: k in pendingByKey ==> pendingByKey[k] in calls
      requires key.Some? && key.value in pendingByKey
      modifies this
      ensures View() == OnArrive(old(View()), request, key, priority)
    {
      var o := pendingByKey[key.value];
      calls := calls[o := calls[o].(waiters := calls[o].waiters + [|callers|])];
      callers := callers + [Caller(request, key, priority, o)];
    }

    method Enqueue(request: Request, key: Option<Key>, priority: int)
      requires forall k :: k in pendingByKey ==> pendingByKey[k] in calls
      requires key.Some? ==> key.value !in pendingByKey
      modifies this
      ensures View() == OnArrive(old(View()), request, key, priority)
    {
      order := order + 1;
      calls := calls[order := Call(priority, order, request, key, [|callers|])];
      queue := queue + [order];
      if key.Some? {
        pendingByKey := pendingByKey[key.value := order];
      }
      if worker.Idle? {
        worker := Ready;
      }
      callers := callers + [Caller(request, key, priority, order)];
    }

    /** A caller gives up waiting. */
    method CancelCall(future: nat)
      requires Valid() && Enabled(View(), Cancel(future))
      modifies this
      ensures Valid() && View() == Step(old(View()), Cancel(future))
    {
      StepKeepsInv(View(), Cancel(future));
      futures := futures[future := Cancelled];
    }

    /** The head of the worker's loop, up to the sleep, the send or the end of the task. */
    method NextTurn(now: real)
      requires Core(View()) && worker.Ready?
      modifies this
      ensures View() == TakeNext(old(View()), now)
    {
      clock := now;
      if queue == [] {
        worker := Idle;
        return;
      }
      var i := LeastIndex(queue, calls);
      var o := queue[i];
      queue := Remove(queue, i);
      var wait := minInterval - (now - lastSentAt);
      if wait > 0.0 {
        worker := Sleeping(o, now + wait, order);
      } else {
        worker := Sending(o, now, order);
      }
    }

    method RunWorker(now: real)
      requires Valid() && Enabled(View(), Start(now))
      modifies this
      ensures Valid() && View() == Step(old(View()), Start(now))
    {
      StepKeepsInv(View(), Start(now));
      NextTurn(now);
    }

    method AfterSleep(now: real)
      requires Valid() && Enabled(View(), Wake(now))
      modifies this
      ensures Valid() && View() == Step(old(View()), Wake(now))
    {
      StepKeepsInv(View(), Wake(now));
      worker := Sending(worker.order, now, worker.seen);
      clock := now;
    }

    /** Set the send's exception on every waiter's future that is not done yet. */
    method RaiseToWaiters(waiters: seq<nat>, send: nat)
      modifies this`futures
      ensures futures == AnswerAll(old(futures), waiters, Raised(send))
    {
      for i := 0 to |waiters|
        invariant futures == AnswerAll(old(futures), waiters[..i], Raised(send))
      {
        assert waiters[..i + 1][..i] == waiters[..i];
        if waiters[i] !in futures {
          futures := futures[waiters[i] := Raised(send)];
        }
      }
      assert waiters[..|waiters|] == waiters;
    }

    /** Set the send's result on every waiter's future that is not done yet. */
    method ResolveWaiters(waiters: seq<nat>, send: nat)
      modifies this`futures
      ensures futures == AnswerAll(old(futures), waiters, Answered(send))
    {
      for i := 0 to |waiters|
        invariant futures == AnswerAll(old(futures), waiters[..i], Answered(send))
      {
        assert waiters[..i + 1][..i] == waiters[..i];
        if waiters[i] !in futures {
          futures := futures[waiters[i] := Answered(send)];
        }
      }
      assert waiters[..|waiters|] == waiters;
    }

    /** The service call returned or raised: answer, free the key, note the time, go round the loop. */
    method AfterSend(ok: bool, now: real, again: real)
      requires Valid() && Enabled(View(), Finish(ok, now, again))
      modifies this
      ensures Valid() && View() == Step(old(View()), Finish(ok, now, again))
    {
      StepKeepsInv(View(), Finish(ok, now, again));
      CompleteKeepsCore(View(), ok, now);
      Conclude(ok, now);
      NextTurn(again);
    }

    /** The `except` and `else` branches. */
    method Settle(ok: bool)
      requires worker.Sending? && worker.order in calls
      modifies this`futures
      ensures futures == AnswerAll(old(futures), calls[worker.order].waiters, Resolution(ok, |sends|))
    {
      if !ok {
        RaiseToWaiters(calls[worker.order].waiters, |sends|);
      } else {
        ResolveWaiters(calls[worker.order].waiters, |sends|);
      }
    }

    /** The whole statement: its branches, then what `finally` does after either. */
    method Conclude(ok: bool, now: real)
      requires worker.Sending? && worker.order in calls
      modifies this
      ensures View() == Complete(old(View()), ok, now)
    {
      var o, startedAt := worker.order, worker.startedAt;
      var c := calls[o];
      Settle(ok);
      sends := sends + [Send(c.priority, o, c.request, c.key, startedAt, now, ok)];
      if c.key.Some? {
        pendingByKey := pendingByKey - {c.key.value};
      }
      lastSentAt, clock := now, now;
      calls := calls - {o};
      worker := Ready;
    }
  }
}
