/** Counting execution results, and deciding when there were too many errors. */
module ResultCollectors {
  import opened Wrappers

  datatype Outcome = AsExpected | ExecutionRunaway | OtherOutcome

  /** The result of running a runner; a failed snapshot may have reported its outcome. */
  datatype RunResult = RunResult(success: bool, playerResult: Option<Outcome>)

  datatype Summary = Summary(playCount: nat, numFailedSnapshots: nat, numRunawaySnapshots: nat)

  const EMPTY_SUMMARY := Summary(0, 0, 0)

  datatype Collected = Collected(summary: Summary, failAfterNErrors: int)

  /** A snapshot that ran away. */
  predicate IsRunaway(r: RunResult) {
    !r.success && r.playerResult == Some(ExecutionRunaway)
  }

  /** A snapshot that counts as failed; runaways do when they are reported as errors. */
  predicate IsFailedSnapshot(r: RunResult, reportRunaways: bool) {
    !r.success && r.playerResult.Some? && (reportRunaways || !IsRunaway(r))
  }

  /** A result that counts towards the number of errors. */
  predicate IsError(r: RunResult, reportRunaways: bool) {
    !r.success && (reportRunaways || !IsRunaway(r))
  }

  /** Processing one result: the new counters, and whether the orchestrator should stop. */
  function Collect(c: Collected, r: RunResult, reportRunaways: bool): (Collected, bool) {
    var played := c.summary.(playCount := c.summary.playCount + 1);
    if r.success then (c.(summary := played), false)
    else
      var runaway := if r.playerResult == Some(ExecutionRunaway)
                     then played.(numRunawaySnapshots := played.numRunawaySnapshots + 1) else played;
      if r.playerResult == Some(ExecutionRunaway) && !reportRunaways then (c.(summary := runaway), false)
      else
        var failed := if r.playerResult.Some?
                      then runaway.(numFailedSnapshots := runaway.numFailedSnapshots + 1) else runaway;
        (Collected(failed, c.failAfterNErrors - 1), c.failAfterNErrors - 1 <= 0)
  }

  /** Processing results one after the other. */
  function CollectAll(c: Collected, results: seq<RunResult>, reportRunaways: bool): Collected {
    if results == [] then c
    else Collect(CollectAll(c, results[..|results| - 1], reportRunaways), results[|results| - 1], reportRunaways).0
  }

  function CountErrors(results: seq<RunResult>, reportRunaways: bool): nat {
    if results == [] then 0
    else
      CountErrors(results[..|results| - 1], reportRunaways)
      + (if IsError(results[|results| - 1], reportRunaways) then 1 else 0)
  }

  function CountFailed(results: seq<RunResult>, reportRunaways: bool): nat {
    if results == [] then 0
    else
      CountFailed(results[..|results| - 1], reportRunaways)
      + (if IsFailedSnapshot(results[|results| - 1], reportRunaways) then 1 else 0)
  }

  function CountRunaways(results: seq<RunResult>): nat {
    if results == [] then 0
    else CountRunaways(results[..|results| - 1]) + (if IsRunaway(results[|results| - 1]) then 1 else 0)
  }

  /** Over a whole run every counter counts what its name says. */
  lemma {:induction false} CountersCount(limit: int, results: seq<RunResult>, reportRunaways: bool)
    ensures CollectAll(Collected(EMPTY_SUMMARY, limit), results, reportRunaways) ==
      Collected(
        Summary(|results|, CountFailed(results, reportRunaways), CountRunaways(results)),
        limit - CountErrors(results, reportRunaways))
    decreases |results|
  {
    if results != [] {
      CountersCount(limit, results[..|results| - 1], reportRunaways);
    }
  }

  /** There are errors, and as many as the limit. */
  predicate TooManyErrors(limit: int, results: seq<RunResult>, reportRunaways: bool) {
    CountErrors(results, reportRunaways) >= limit && CountErrors(results, reportRunaways) > 0
  }

  /** Whether processing result `k` of a run asked to stop. */
  predicate StopsAt(limit: int, results: seq<RunResult>, reportRunaways: bool, k: nat)
    requires k < |results|
  {
    Collect(CollectAll(Collected(EMPTY_SUMMARY, limit), results[..k], reportRunaways), results[k], reportRunaways).1
  }

  /** Result `k` asks to stop exactly when it is an error and, with it, there are enough. */
  lemma StopsAtLimit(limit: int, results: seq<RunResult>, reportRunaways: bool, k: nat)
    requires k < |results|
    ensures StopsAt(limit, results, reportRunaways, k) <==>
      IsError(results[k], reportRunaways) && CountErrors(results[..k + 1], reportRunaways) >= limit
  {
    assert results[..k + 1][..k] == results[..k];
    CountersCount(limit, results[..k], reportRunaways);
  }

  /** A run asks to stop exactly when it holds an error, and as many as the limit. */
  lemma {:induction false} RunStops(limit: int, results: seq<RunResult>, reportRunaways: bool)
    ensures (exists k :: 0 <= k < |results| && StopsAt(limit, results, reportRunaways, k)) <==>
      TooManyErrors(limit, results, reportRunaways)
    decreases |results|
  {
    if results != [] {
      var last := |results| - 1;
      var front := results[..last];
      RunStops(limit, front, reportRunaways);
      forall k | 0 <= k < last
        ensures StopsAt(limit, front, reportRunaways, k) <==> StopsAt(limit, results, reportRunaways, k)
      {
        assert front[..k] == results[..k];
      }
      StopsAtLimit(limit, results, reportRunaways, last);
      assert results[..last + 1] == results;
      if k :| 0 <= k < last && StopsAt(limit, front, reportRunaways, k) {
        assert StopsAt(limit, results, reportRunaways, k);
      }
      if IsError(results[last], reportRunaways) && CountErrors(results, reportRunaways) >= limit {
        assert StopsAt(limit, results, reportRunaways, last);
      }
    }
  }

  class ResultCollector {
    const reportRunawaysAsErrors: bool
    var failAfterNErrors: int
    var summary: Summary

    function State(): Collected
      reads this
    {
      Collected(summary, failAfterNErrors)
    }

    constructor (reportRunawaysAsErrors: bool, failAfterNErrors: int)
      ensures this.reportRunawaysAsErrors == reportRunawaysAsErrors
      ensures State() == Collected(EMPTY_SUMMARY, failAfterNErrors)
    {
      this.reportRunawaysAsErrors := reportRunawaysAsErrors;
      this.failAfterNErrors := failAfterNErrors;
      summary := EMPTY_SUMMARY;
    }

    /** Processes one result; the answer says whether the orchestrator should stop. */
    method Process(r: RunResult) returns (shouldStop: bool)
      modifies this
      ensures (State(), shouldStop) == Collect(old(State()), r, reportRunawaysAsErrors)
    {
      summary := summary.(playCount := summary.playCount + 1);
      shouldStop := false;
      if !r.success {
        if r.playerResult.Some? {
          if r.playerResult.value == ExecutionRunaway {
            summary := summary.(numRunawaySnapshots := summary.numRunawaySnapshots + 1);
            if !reportRunawaysAsErrors {
              return false;
            }
          }
          summary := summary.(numFailedSnapshots := summary.numFailedSnapshots + 1);
        }
        failAfterNErrors := failAfterNErrors - 1;
        shouldStop := failAfterNErrors <= 0;
      }
    }
  }
}
