/**
  The orchestrator's bounded queue of results: worker threads offer results, the main thread
  takes the whole queue under the lock and processes it outside, and drains what is left
  after the workers have ended.
 */
module ExecutionContexts {
  import opened Wrappers
  import opened ResultCollectors

  // ----- single operations -----

  /** An offer with the lock held: the new queue, the number of dropped results, and the answer. */
  function Offer(queue: seq<RunResult>, dropped: nat, numThreads: nat, result: Option<RunResult>)
    : (seq<RunResult>, nat, bool)
  {
    if result.None? then (queue, dropped, true)
    else if |queue| >= numThreads then (queue, dropped + 1, false)
    else (queue + [result.value], dropped, true)
  }

  class ExecutionContext {
    const numThreads: nat
    const collector: ResultCollector
    var stopExecution: bool
    var invocationResults: seq<RunResult>
    var numDroppedResults: nat

    constructor (numThreads: nat, collector: ResultCollector)
      ensures this.numThreads == numThreads && this.collector == collector
      ensures !stopExecution && invocationResults == [] && numDroppedResults == 0
    {
      this.numThreads := numThreads;
      this.collector := collector;
      stopExecution := false;
      invocationResults := [];
      numDroppedResults := 0;
    }

    /** Results that are not ok are not queued, but count as taken. */
    method OfferRunResult(result: Option<RunResult>) returns (taken: bool)
      modifies this`invocationResults, this`numDroppedResults
      ensures (invocationResults, numDroppedResults, taken)
        == Offer(old(invocationResults), old(numDroppedResults), numThreads, result)
      ensures result.None? ==>
        taken && invocationResults == old(invocationResults) && numDroppedResults == old(numDroppedResults)
      ensures result.Some? && |old(invocationResults)| < numThreads ==>
        && taken
        && invocationResults == old(invocationResults) + [result.value]
        && numDroppedResults == old(numDroppedResults)
      ensures result.Some? && |old(invocationResults)| >= numThreads ==>
        && !taken
        && invocationResults == old(invocationResults)
        && numDroppedResults == old(numDroppedResults) + 1
    {
      if result.None? {
        return true;
      }
      if |invocationResults| >= numThreads {
        numDroppedResults := numDroppedResults + 1;
        return false;
      }
      invocationResults := invocationResults + [result.value];
      return true;
    }

    method Stop()
      modifies this`stopExecution
      ensures stopExecution
    {
      stopExecution := true;
    }

    /** The locked part of the event loop. */
    method TakeResults() returns (results: seq<RunResult>)
      modifies this`invocationResults
      ensures results == old(invocationResults) && invocationResults == []
    {
      results := [];
      invocationResults, results := results, invocationResults;
    }

    /** Passes results to the callback in order, and stops once it asks for that. */
    method ProcessResultQueueImpl(results: seq<RunResult>)
      modifies this`stopExecution, collector
      ensures collector.State() == CollectAll(old(collector.State()), results, collector.reportRunawaysAsErrors)
      ensures stopExecution <==> old(stopExecution) || AsksToStop(old(collector.State()), results, collector.reportRunawaysAsErrors)
    {
      for i := 0 to |results|
        invariant collector.State() == CollectAll(old(collector.State()), results[..i], collector.reportRunawaysAsErrors)
        invariant stopExecution <==>
          old(stopExecution) || AsksToStop(old(collector.State()), results[..i], collector.reportRunawaysAsErrors)
      {
        assert results[..i + 1][..i] == results[..i];
        var stop := collector.Process(results[i]);
        if stop {
          Stop();
        }
      }
      assert results[..|results|] == results;
    }

    method ProcessResultQueue()
      modifies this`stopExecution, this`invocationResults, collector
      ensures invocationResults == []
      ensures collector.State() == CollectAll(old(collector.State()), old(invocationResults), collector.reportRunawaysAsErrors)
      ensures stopExecution <==>
        old(stopExecution) || AsksToStop(old(collector.State()), old(invocationResults), collector.reportRunawaysAsErrors)
    {
      ProcessResultQueueImpl(invocationResults);
      invocationResults := [];
    }
  }

  /** Whether processing some of the results asks to stop. */
  predicate AsksToStop(c: Collected, results: seq<RunResult>, reportRunaways: bool) {
    results != [] &&
      var front := results[..|results| - 1];
      (AsksToStop(c, front, reportRunaways)
       || Collect(CollectAll(c, front, reportRunaways), results[|results| - 1], reportRunaways).1)
  }

  // ----- all threads together -----

  /**
    Where the main thread is.  While it processes results, `next` counts those passed to the
    callback, and `asked` says that the callback asked to stop but the flag is not set yet.
   */
  datatype MainThread =
    | Checking
    | Waiting
    | Processing(results: seq<RunResult>, next: nat, asked: bool)
    | Joining
    | Draining(done: nat, asked: bool)
    | Finished

  /** The shared state, the running workers, and what has been offered, taken and delivered so far. */
  datatype State = State(
    queue: seq<RunResult>,
    dropped: nat,
    stop: bool,
    late: bool,
    main: MainThread,
    workers: set<nat>,
    collected: Collected,
    offered: nat,
    accepted: seq<RunResult>,
    delivered: seq<RunResult>)

  /** The atomic steps of the workers, of the main thread and of the outside world. */
  datatype Event =
    | OfferResult(worker: nat, result: Option<RunResult>)
    | EndWorker(worker: nat)
    | SignalStop
    | PassDeadline
    | CheckStop
    | Swap
    | CallBack
    | StoreStop
    | EndBatch
    | Join
    | ClearQueue

  datatype Config = Config(numThreads: nat, reportRunaways: bool, limit: int)

  function Start(c: Config, workers: set<nat>): State {
    State([], 0, false, false, Checking, workers, Collected(EMPTY_SUMMARY, c.limit), 0, [], [])
  }

  /** The run is to stop: somebody asked for it, or the deadline has passed. */
  predicate ShouldStop(s: State) {
    s.stop || s.late
  }

  /** A worker offers a result; the drain holds the lock. */
  function OfferStep(c: Config, s: State, worker: nat, result: Option<RunResult>): Option<State> {
    if worker !in s.workers || s.main.Draining? then None
    else
      var r := Offer(s.queue, s.dropped, c.numThreads, result);
      Some(s.(
        queue := r.0,
        dropped := r.1,
        offered := if result.Some? then s.offered + 1 else s.offered,
        accepted := if result.Some? && r.2 then s.accepted + [result.value] else s.accepted))
  }

  /** The next result is passed to the callback. */
  function CallBackStep(c: Config, s: State): Option<State> {
    match s.main
    case Processing(results, next, false) =>
      if next < |results| then
        var r := Collect(s.collected, results[next], c.reportRunaways);
        Some(s.(collected := r.0, delivered := s.delivered + [results[next]], main := Processing(results, next + 1, r.1)))
      else None
    case Draining(next, false) =>
      if next < |s.queue| then
        var r := Collect(s.collected, s.queue[next], c.reportRunaways);
        Some(s.(collected := r.0, delivered := s.delivered + [s.queue[next]], main := Draining(next + 1, r.1)))
      else None
    case _ => None
  }

  function StoreStopStep(s: State): Option<State> {
    match s.main
    case Processing(results, next, true) => Some(s.(stop := true, main := Processing(results, next, false)))
    case Draining(next, true) => Some(s.(stop := true, main := Draining(next, false)))
    case _ => None
  }

  /** The state after one step, if the step can be taken. */
  function Step(c: Config, s: State, e: Event): Option<State> {
    match e
    case OfferResult(worker, result) => OfferStep(c, s, worker, result)
    case EndWorker(worker) =>
      if worker in s.workers then Some(s.(stop := true, workers := s.workers - {worker})) else None
    case SignalStop => Some(s.(stop := true))
    case PassDeadline => Some(s.(late := true))
    case CheckStop =>
      if s.main.Checking? then Some(s.(main := if ShouldStop(s) then Joining else Waiting)) else None
    case Swap =>
      if s.main.Waiting? then Some(s.(queue := [], main := Processing(s.queue, 0, false))) else None
    case CallBack => CallBackStep(c, s)
    case StoreStop => StoreStopStep(s)
    case EndBatch =>
      if s.main.Processing? && s.main.next == |s.main.results| && !s.main.asked then Some(s.(main := Checking)) else None
    case Join =>
      if s.main.Joining? && s.workers == {} then Some(s.(main := Draining(0, false))) else None
    case ClearQueue =>
      if s.main.Draining? && s.main.done == |s.queue| && !s.main.asked then Some(s.(queue := [], main := Finished))
      else None
  }

  /** The state after a run of steps. */
  function Run(c: Config, s: State, events: seq<Event>): Option<State> {
    if events == [] then Some(s)
    else
      var before := Run(c, s, events[..|events| - 1]);
      if before.None? then None else Step(c, before.value, events[|events| - 1])
  }

  // ----- what every run keeps -----

  /** The results that were taken from the queue but not yet delivered, followed by those in the queue. */
  function Undelivered(s: State): seq<RunResult> {
    match s.main
    case Processing(results, next, _) => (if next <= |results| then results[next..] else []) + s.queue
    case Draining(next, _) => if next <= |s.queue| then s.queue[next..] else []
    case _ => s.queue
  }

  predicate Positioned(c: Config, s: State) {
    match s.main
    case Processing(results, next, _) => next <= |results| <= c.numThreads
    case Draining(next, _) => next <= |s.queue| && s.workers == {}
    case Finished => s.queue == [] && s.workers == {}
    case _ => true
  }

  predicate Asked(main: MainThread) {
    (main.Processing? || main.Draining?) && main.asked
  }

  /**
    The queue is bounded; nothing that was accepted is lost, repeated or reordered; every ok
    result was accepted or counted as dropped; the counters count what was delivered; and
    once too many errors were delivered, a stop was requested.
   */
  predicate Invariant(c: Config, s: State) {
    && Positioned(c, s)
    && |s.queue| <= c.numThreads
    && s.accepted == s.delivered + Undelivered(s)
    && s.offered == |s.accepted| + s.dropped
    && s.collected == CollectAll(Collected(EMPTY_SUMMARY, c.limit), s.delivered, c.reportRunaways)
    && (TooManyErrors(c.limit, s.delivered, c.reportRunaways) ==> s.stop || Asked(s.main))
  }

  lemma OfferKeeps(c: Config, s: State, worker: nat, result: Option<RunResult>)
    requires Invariant(c, s) && OfferStep(c, s, worker, result).Some?
    ensures Invariant(c, OfferStep(c, s, worker, result).value)
  {
    if result.Some? && |s.queue| < c.numThreads {
      AppendLast(s.delivered, if s.main.Processing? then s.main.results[s.main.next..] else [], s.queue, result.value);
    }
  }

  lemma AppendLast(delivered: seq<RunResult>, taken: seq<RunResult>, queue: seq<RunResult>, r: RunResult)
    ensures (delivered + (taken + queue)) + [r] == delivered + (taken + (queue + [r]))
    ensures (delivered + queue) + [r] == delivered + (queue + [r])
  {}

  /** Delivering one more result makes the callback ask to stop if there are too many errors now but were not before. */
  lemma DeliverOne(c: Config, delivered: seq<RunResult>, r: RunResult)
    ensures var before := CollectAll(Collected(EMPTY_SUMMARY, c.limit), delivered, c.reportRunaways);
      var after := Collect(before, r, c.reportRunaways);
      && CollectAll(Collected(EMPTY_SUMMARY, c.limit), delivered + [r], c.reportRunaways) == after.0
      && (TooManyErrors(c.limit, delivered + [r], c.reportRunaways) ==>
            after.1 || TooManyErrors(c.limit, delivered, c.reportRunaways))
  {
    assert (delivered + [r])[..|delivered|] == delivered;
    CountersCount(c.limit, delivered, c.reportRunaways);
  }

  /** The first of some results, and the others. */
  lemma FirstOf(results: seq<RunResult>, next: nat)
    requires next < |results|
    ensures results[next..] == [results[next]] + results[next + 1..]
  {}

  lemma MoveFirst(delivered: seq<RunResult>, r: RunResult, rest: seq<RunResult>)
    ensures delivered + ([r] + rest) == (delivered + [r]) + rest
  {}

  /** What delivering the next result changes. */
  function Delivered(c: Config, s: State, r: RunResult, main: MainThread): State {
    s.(collected := Collect(s.collected, r, c.reportRunaways).0, delivered := s.delivered + [r], main := main)
  }

  /** Delivering a result keeps the invariant if it was the first undelivered one. */
  lemma DeliveryKeeps(c: Config, s: State, r: RunResult, rest: seq<RunResult>, main: MainThread)
    requires Invariant(c, s) && Undelivered(s) == [r] + rest && !Asked(s.main)
    requires var s' := Delivered(c, s, r, main);
      && Positioned(c, s') && Undelivered(s') == rest
      && (Collect(s.collected, r, c.reportRunaways).1 ==> Asked(main))
    ensures Invariant(c, Delivered(c, s, r, main))
  {
    MoveFirst(s.delivered, r, rest);
    DeliverOne(c, s.delivered, r);
  }

  lemma ProcessingKeeps(c: Config, s: State)
    requires Invariant(c, s) && s.main.Processing? && CallBackStep(c, s).Some?
    ensures Invariant(c, CallBackStep(c, s).value)
  {
    var results, next := s.main.results, s.main.next;
    FirstOf(results, next);
    FirstInQueue(results[next], results[next + 1..], s.queue);
    DeliveryKeeps(c, s, results[next], results[next + 1..] + s.queue,
      Processing(results, next + 1, Collect(s.collected, results[next], c.reportRunaways).1));
  }

  lemma FirstInQueue(r: RunResult, rest: seq<RunResult>, queue: seq<RunResult>)
    ensures ([r] + rest) + queue == [r] + (rest + queue)
  {}

  lemma DrainingKeeps(c: Config, s: State)
    requires Invariant(c, s) && s.main.Draining? && CallBackStep(c, s).Some?
    ensures Invariant(c, CallBackStep(c, s).value)
  {
    var next := s.main.done;
    FirstOf(s.queue, next);
    DeliveryKeeps(c, s, s.queue[next], s.queue[next + 1..],
      Draining(next + 1, Collect(s.collected, s.queue[next], c.reportRunaways).1));
  }

  lemma SwapKeeps(c: Config, s: State)
    requires Invariant(c, s) && s.main.Waiting?
    ensures Invariant(c, s.(queue := [], main := Processing(s.queue, 0, false)))
  {
    assert s.queue[0..] + [] == s.queue;
  }

  lemma ClearKeeps(c: Config, s: State)
    requires Invariant(c, s) && Step(c, s, ClearQueue).Some?
    ensures Invariant(c, Step(c, s, ClearQueue).value)
  {}

  /** Steps that move no result keep the invariant. */
  lemma QuietKeeps(c: Config, s: State, s': State)
    requires Invariant(c, s) && Positioned(c, s') && Undelivered(s') == Undelivered(s)
    requires s' == s.(main := s'.main, stop := s'.stop, late := s'.late, workers := s'.workers)
    requires s.stop || Asked(s.main) ==> s'.stop || Asked(s'.main)
    ensures Invariant(c, s')
  {}

  lemma EndOfBatch(results: seq<RunResult>, queue: seq<RunResult>)
    ensures results[|results|..] + queue == queue
  {}

  lemma QuietStepKeeps(c: Config, s: State, e: Event)
    requires Invariant(c, s) && Step(c, s, e).Some?
    requires !e.OfferResult? && !e.CallBack? && !e.Swap? && !e.ClearQueue?
    ensures Invariant(c, Step(c, s, e).value)
  {
    if e.EndBatch? {
      EndOfBatch(s.main.results, s.queue);
    }
    QuietKeeps(c, s, Step(c, s, e).value);
  }

  /** Every step keeps the invariant. */
  lemma StepKeeps(c: Config, s: State, e: Event)
    requires Invariant(c, s) && Step(c, s, e).Some?
    ensures Invariant(c, Step(c, s, e).value)
  {
    match e
    case OfferResult(worker, result) => OfferKeeps(c, s, worker, result);
    case CallBack =>
      if s.main.Processing? {
        ProcessingKeeps(c, s);
      } else {
        DrainingKeeps(c, s);
      }
    case Swap => SwapKeeps(c, s);
    case ClearQueue => ClearKeeps(c, s);
    case _ => QuietStepKeeps(c, s, e);
  }

  /** In every interleaving the invariant holds. */
  lemma {:induction false} RunKeeps(c: Config, workers: set<nat>, events: seq<Event>)
    requires Run(c, Start(c, workers), events).Some?
    ensures Invariant(c, Run(c, Start(c, workers), events).value)
    decreases |events|
  {
    if events != [] {
      RunKeeps(c, workers, events[..|events| - 1]);
      StepKeeps(c, Run(c, Start(c, workers), events[..|events| - 1]).value, events[|events| - 1]);
    }
  }

  // ----- which results are dropped -----

  /** A worker offers an ok result while there is one in the queue for every thread. */
  predicate OffersTooMuch(c: Config, s: State, e: Event) {
    e.OfferResult? && e.result.Some? && |s.queue| >= c.numThreads
  }

  /** A step drops a result if and only if a worker offers one while the queue is full. */
  lemma DroppedWhenFull(c: Config, s: State, e: Event)
    requires Step(c, s, e).Some?
    ensures Step(c, s, e).value.dropped == s.dropped + if OffersTooMuch(c, s, e) then 1 else 0
    ensures e.OfferResult? && e.result.Some? && |s.queue| < c.numThreads ==>
      Step(c, s, e).value.queue == s.queue + [e.result.value]
  {}

  /** In how many steps of a run a worker offers a result while the queue is full. */
  function CountTooMuch(c: Config, s: State, events: seq<Event>): nat {
    if events == [] then 0
    else
      var before := Run(c, s, events[..|events| - 1]);
      CountTooMuch(c, s, events[..|events| - 1])
      + if before.Some? && OffersTooMuch(c, before.value, events[|events| - 1]) then 1 else 0
  }

  /** So over a run the drop count says how often the queue was full. */
  lemma {:induction false} DroppedOverRun(c: Config, s: State, events: seq<Event>)
    requires Run(c, s, events).Some?
    ensures Run(c, s, events).value.dropped == s.dropped + CountTooMuch(c, s, events)
    decreases |events|
  {
    if events != [] {
      DroppedOverRun(c, s, events[..|events| - 1]);
      DroppedWhenFull(c, Run(c, s, events[..|events| - 1]).value, events[|events| - 1]);
    }
  }

  /**
    After the workers were joined and the queue drained, every accepted result was delivered
    exactly once and in order, and every ok result that was offered was played or dropped.
   */
  lemma FinishedDelivered(c: Config, workers: set<nat>, events: seq<Event>)
    requires Run(c, Start(c, workers), events).Some?
    ensures var s := Run(c, Start(c, workers), events).value;
      s.main.Finished? ==>
        && s.delivered == s.accepted
        && s.collected.summary.playCount + s.dropped == s.offered
        && s.collected.summary.numFailedSnapshots == CountFailed(s.accepted, c.reportRunaways)
        && s.queue == []
  {
    RunKeeps(c, workers, events);
    var s := Run(c, Start(c, workers), events).value;
    CountersCount(c.limit, s.delivered, c.reportRunaways);
  }

  /** A stop is never taken back. */
  lemma {:induction false} StopStays(c: Config, s: State, events: seq<Event>)
    requires Run(c, s, events).Some? && s.stop
    ensures Run(c, s, events).value.stop
    decreases |events|
  {
    if events != [] {
      StopStays(c, s, events[..|events| - 1]);
    }
  }

  /** As long as nobody asked for a stop, all workers are running. */
  lemma {:induction false} WorkersRunUntilStop(c: Config, workers: set<nat>, events: seq<Event>)
    requires Run(c, Start(c, workers), events).Some?
    ensures var s := Run(c, Start(c, workers), events).value; s.stop || s.workers == workers
    decreases |events|
  {
    if events != [] {
      WorkersRunUntilStop(c, workers, events[..|events| - 1]);
    }
  }

  /** The event loop is left only when the run is to stop. */
  lemma {:induction false} LeftOnlyToStop(c: Config, workers: set<nat>, events: seq<Event>)
    requires Run(c, Start(c, workers), events).Some?
    ensures var s := Run(c, Start(c, workers), events).value;
      s.main.Joining? || s.main.Draining? || s.main.Finished? ==> ShouldStop(s)
    decreases |events|
  {
    if events != [] {
      LeftOnlyToStop(c, workers, events[..|events| - 1]);
    }
  }

  // ----- the main thread comes to an end -----

  /** The next step of the main thread when it need not wait for anything. */
  function NextOfMain(s: State): Event {
    match s.main
    case Checking => CheckStop
    case Waiting => Swap
    case Processing(results, next, asked) => if asked then StoreStop else if next < |results| then CallBack else EndBatch
    case Joining => Join
    case Draining(next, asked) => if asked then StoreStop else if next < |s.queue| then CallBack else ClearQueue
    case Finished => CheckStop
  }

  /** How many steps the main thread still has to take. */
  function Remaining(s: State): nat {
    match s.main
    case Checking => 2 * |s.queue| + 3
    case Waiting => 2 * |s.queue| + 5
    case Processing(results, next, asked) =>
      2 * (if next <= |results| then |results| - next else 0) + (if asked then 1 else 0) + 2 * |s.queue| + 4
    case Joining => 2 * |s.queue| + 2
    case Draining(next, asked) =>
      2 * (if next <= |s.queue| then |s.queue| - next else 0) + (if asked then 1 else 0) + 1
    case Finished => 0
  }

  /** The next step can be taken, keeps the stop and the workers, and brings the end nearer. */
  predicate Progresses(c: Config, s: State) {
    var next := Step(c, s, NextOfMain(s));
    && next.Some?
    && ShouldStop(next.value) && next.value.workers == s.workers
    && Remaining(next.value) < Remaining(s)
  }

  lemma ProcessingProgresses(c: Config, s: State)
    requires Invariant(c, s) && ShouldStop(s) && s.main.Processing?
    ensures Progresses(c, s)
  {}

  lemma DrainingProgresses(c: Config, s: State)
    requires Invariant(c, s) && ShouldStop(s) && s.main.Draining?
    ensures Progresses(c, s)
  {}

  /** Once stopped and without workers, the main thread can always go on, and comes nearer to its end. */
  lemma MainProgresses(c: Config, s: State)
    requires Invariant(c, s) && ShouldStop(s) && s.workers == {} && !s.main.Finished?
    ensures Progresses(c, s)
  {
    if s.main.Processing? {
      ProcessingProgresses(c, s);
    } else if s.main.Draining? {
      DrainingProgresses(c, s);
    }
  }

  /** So a stopped run without workers can always be completed. */
  lemma {:induction false} CanFinish(c: Config, s: State) returns (events: seq<Event>)
    requires Invariant(c, s) && ShouldStop(s) && s.workers == {}
    ensures |events| <= Remaining(s)
    ensures Run(c, s, events).Some? && Run(c, s, events).value.main.Finished?
    decreases Remaining(s)
  {
    if s.main.Finished? {
      events := [];
    } else {
      var e := NextOfMain(s);
      MainProgresses(c, s);
      StepKeeps(c, s, e);
      var rest := CanFinish(c, Step(c, s, e).value);
      RunFirst(c, s, e, rest);
      events := [e] + rest;
    }
  }

  /** From every state that a run can come to, the run can be completed. */
  lemma {:induction false} CanAlwaysFinish(c: Config, s: State) returns (events: seq<Event>)
    requires Invariant(c, s)
    ensures Run(c, s, events).Some? && Run(c, s, events).value.main.Finished?
    decreases |s.workers|
  {
    var e;
    if s.workers != {} {
      var worker :| worker in s.workers;
      e := EndWorker(worker);
    } else if !ShouldStop(s) {
      e := SignalStop;
    } else {
      events := CanFinish(c, s);
      return;
    }
    StepKeeps(c, s, e);
    var rest;
    if s.workers != {} {
      rest := CanAlwaysFinish(c, Step(c, s, e).value);
    } else {
      rest := CanFinish(c, Step(c, s, e).value);
    }
    RunFirst(c, s, e, rest);
    events := [e] + rest;
  }

  lemma {:induction false} RunFirst(c: Config, s: State, e: Event, rest: seq<Event>)
    requires Step(c, s, e).Some?
    ensures Run(c, s, [e] + rest) == Run(c, Step(c, s, e).value, rest)
    decreases |rest|
  {
    var all := [e] + rest;
    var s' := Step(c, s, e).value;
    if rest == [] {
      assert all[..0] == [];
      assert Run(c, s, all[..0]) == Some(s);
    } else {
      var front, last := rest[..|rest| - 1], rest[|rest| - 1];
      RunFirst(c, s, e, front);
      assert all[..|all| - 1] == [e] + front && all[|all| - 1] == last;
      RunLast(c, s, all);
      RunLast(c, s', rest);
    }
  }

  lemma RunLast(c: Config, s: State, events: seq<Event>)
    requires events != []
    ensures var before := Run(c, s, events[..|events| - 1]);
      Run(c, s, events) == if before.None? then None else Step(c, before.value, events[|events| - 1])
  {}
}
