/** What one call of the executor consumes and produces, shared by the
    synchronous and the asynchronous executor, and `ResolvedRun`, the shape
    of the trace once the executable has been resolved. */
module Execution {
  import opened Wrappers
  import opened Interception

  /** How a call ended: it returned a value (`None` is `null`) or threw. */
  datatype Outcome<R> = Returned(value: Option<R>) | Threw(exception: Exception)

  /** How a void executable's `Execute` ended. */
  datatype Completion = Completed | Failed(exception: Exception)

  /** `IEmpty`: the placeholder type of a missing input or output; the
      executor only ever passes `null` of it. */
  datatype Empty = Empty

  /** What the execution scope's service provider offers: the executable
      instance, if one is registered, and the general and specific
      interceptors, in registration order. */
  datatype Scope<E> = Scope(executable: Option<E>, general: seq<Interceptor>, specific: seq<Interceptor>)

  /** One execution: how it ended and what it called, in order. */
  datatype Run<I, R> = Run(outcome: Outcome<R>, trace: seq<Event<I, R>>)

  /** A void executable's completion as the generic call sees it: `null` on
      success. */
  function VoidOutcome(c: Completion): Outcome<Empty>
  {
    match c
    case Completed => Returned(None)
    case Failed(e) => Threw(e)
  }

  /** The `result` handed to `After`: the executable's value, or
      `default(TResult)` when it threw. */
  function ResultOf<R>(o: Outcome<R>): Option<R>
  {
    match o
    case Returned(v) => v
    case Threw(_) => None
  }

  /** The `exception` handed to `After`: `null` on success. */
  function ExceptionOf<R>(o: Outcome<R>): Option<Exception>
  {
    match o
    case Returned(_) => None
    case Threw(e) => Some(e)
  }

  /** The run of a resolved executable over `chain`, where `o` is what the
      executable does with `input`. If every `Before` completes: all
      `Before` calls in chain order, the executable exactly once, then all
      `After` calls in reverse chain order with the executable's result and
      exception, and the call ends as the executable did. If some `Before`
      throws: the `Before` calls up to and including that one, nothing else,
      and the call ends with that exception. */
  ghost predicate ResolvedRun<I, R>(chain: seq<Member>, o: Outcome<R>, input: Option<I>, r: Run<I, R>)
  {
    var n := |chain|;
    if BeforeCompletes(chain) then
      && r.outcome == o
      && |r.trace| == 2 * n + 1
      && (forall k :: 0 <= k < n ==> r.trace[k] == BeforeCall(chain[k], input))
      && r.trace[n] == Executed(input)
      && (forall k :: n < k <= 2 * n ==>
            r.trace[k] == AfterCall(chain[2 * n - k], input, ResultOf(o), ExceptionOf(o)))
    else
      var f := FirstFault(chain);
      && r.outcome == Threw(chain[f].interceptor.beforeFault.value)
      && |r.trace| == f + 1
      && (forall k :: 0 <= k <= f ==> r.trace[k] == BeforeCall(chain[k], input))
  }

  /** A resolved run leaves nothing open: the chain, the executable's
      outcome and the input fix the whole call. */
  lemma ResolvedRunIsUnique<I, R>(chain: seq<Member>, o: Outcome<R>, input: Option<I>, r1: Run<I, R>, r2: Run<I, R>)
    requires ResolvedRun(chain, o, input, r1) && ResolvedRun(chain, o, input, r2)
    ensures r1 == r2
  {
    assert |r1.trace| == |r2.trace|;
    forall k | 0 <= k < |r1.trace| ensures r1.trace[k] == r2.trace[k] {
      if BeforeCompletes(chain) && k > |chain| {
        assert r1.trace[k] == AfterCall(chain[2 * |chain| - k], input, ResultOf(o), ExceptionOf(o));
      }
    }
  }

  /** The body of the private `Execute` once the executable is resolved and
      the chain selected: `Before` outside the `try`, then the executable,
      then `After` with the result and `null`, or with the default result
      and the caught exception, which is rethrown. `outcome` is what the
      executable does with `input`. */
  function RunChain<I, R>(chain: seq<Member>, outcome: Outcome<R>, input: Option<I>): (r: Run<I, R>)
    ensures ResolvedRun(chain, outcome, input, r)
  {
    var before := BeforeEach(chain);
    var calls := BeforeCalls<I, R>(before.called, input);
    if before.fault.Some? then
      Run(Threw(before.fault.value), calls)
    else
      var after := match outcome
        case Threw(e) => AfterEach(chain, input, None, Some(e))
        case Returned(result) => AfterEach(chain, input, result, None);
      CompletedPhasesAreResolvedRun(chain, outcome, input, calls, after);
      Run(outcome, calls + [Executed(input)] + after)
  }

  /** When every `Before` completes, the calls, the executable and the
      reversed `After` calls line up as a resolved run. */
  lemma CompletedPhasesAreResolvedRun<I, R>(chain: seq<Member>, o: Outcome<R>, input: Option<I>,
                                            calls: seq<Event<I, R>>, after: seq<Event<I, R>>)
    requires BeforeCompletes(chain)
    requires calls == BeforeCalls<I, R>(chain, input)
    requires after == AfterEach(chain, input, ResultOf(o), ExceptionOf(o))
    ensures ResolvedRun(chain, o, input, Run(o, calls + [Executed(input)] + after))
  {
    var n := |chain|;
    var trace := calls + [Executed(input)] + after;
    forall k | n < k <= 2 * n
      ensures trace[k] == AfterCall(chain[2 * n - k], input, ResultOf(o), ExceptionOf(o))
    {
      assert trace[k] == after[k - n - 1];
    }
  }

  /** Every call in a resolved run receives the call's input; every `After`
      receives the executable's result and exception; a normal return hands
      back what the executable returned. */
  lemma ResolvedRunPassesValues<I, R>(chain: seq<Member>, o: Outcome<R>, input: Option<I>, r: Run<I, R>)
    requires ResolvedRun(chain, o, input, r)
    ensures forall k :: 0 <= k < |r.trace| ==> r.trace[k].input == input
    ensures forall k :: 0 <= k < |r.trace| && r.trace[k].AfterCall? ==>
              r.trace[k].result == ResultOf(o) && r.trace[k].exception == ExceptionOf(o)
    ensures r.outcome.Returned? ==> r.outcome == o
  {
  }

  /** The executable runs once exactly when every `Before` completes, and
      then strictly between the last `Before` and the first `After`. */
  lemma ExecutedOnceBetweenPhases<I, R>(chain: seq<Member>, o: Outcome<R>, input: Option<I>, r: Run<I, R>)
    requires ResolvedRun(chain, o, input, r)
    ensures BeforeCompletes(chain) ==>
              forall k :: 0 <= k < |r.trace| ==>
                && (r.trace[k].Executed? <==> k == |chain|)
                && (r.trace[k].BeforeCall? <==> k < |chain|)
                && (r.trace[k].AfterCall? <==> k > |chain|)
    ensures !BeforeCompletes(chain) ==>
              forall k :: 0 <= k < |r.trace| ==> r.trace[k].BeforeCall?
  {
  }

  /** After a completed `Before` phase, the `After` phase visits the chain in
      exactly the reverse order; if the executable threw, every `After`
      receives that same exception and the default result, and the same
      exception ends the call. */
  lemma AfterMirrorsBefore<I, R>(chain: seq<Member>, o: Outcome<R>, input: Option<I>, r: Run<I, R>)
    requires ResolvedRun(chain, o, input, r)
    requires BeforeCompletes(chain)
    ensures Visited(r.trace[..|chain|]) == chain
    ensures Visited(r.trace[|chain| + 1..]) == Reverse(Visited(r.trace[..|chain|]))
    ensures o.Threw? ==>
              && r.outcome == o
              && forall k :: |chain| < k < |r.trace| ==>
                   r.trace[k].AfterCall? && r.trace[k].result == None && r.trace[k].exception == Some(o.exception)
  {
    var n := |chain|;
    VisitedBeforeCalls(chain, r.trace[..n], input);
    var after := r.trace[n + 1..];
    forall k | 0 <= k < n ensures after[k] == AfterCall(chain[n - 1 - k], input, ResultOf(o), ExceptionOf(o)) {
      assert after[k] == r.trace[n + 1 + k];
    }
    VisitedAfterCalls(chain, after, input, ResultOf(o), ExceptionOf(o));
  }
}
