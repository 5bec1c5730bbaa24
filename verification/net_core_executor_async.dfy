/** `NetCoreExecutorAsync`: the asynchronous executor. Its code repeats the
    synchronous one with awaited calls; awaiting adds no step of its own, so
    an asynchronous execution is modelled as the same sequence of calls. The
    chain it runs is the `AsyncInterceptors` class, whose loops are those of
    `Interceptors`. */
module NetCoreExecutorAsync {
  import opened Wrappers
  import opened Interception
  import opened Selection
  import opened Execution
  import NetCoreExecutor

  /** `GetAsyncInterceptors`: chooses the asynchronous chain from the general and the specific
      interceptors registered in the scope. */
  function GetAsyncInterceptors(general: seq<Interceptor>, specific: seq<Interceptor>): (r: Interceptors)
    ensures SelectionRules(general, specific, r)
  {
    if |specific| > 0 || |general| > 0 then
      var firstSpecific := FirstDiscarder(specific);
      var firstGeneral := FirstDiscarder(general);
      if firstSpecific.Some? && firstGeneral.Some? then
        if firstSpecific.value.ordering <= firstGeneral.value.ordering || firstSpecific.value.discardNonGeneric then
          SpecificDiscarderWins(general, specific);
          NewInterceptors([], [firstSpecific.value])
        else
          GeneralDiscarderWins(general, specific);
          NewInterceptors([firstGeneral.value], [])
      else if firstSpecific.Some? then
        SpecificDiscarderWins(general, specific);
        NewInterceptors([], [firstSpecific.value])
      else if firstGeneral.Some? then
        GeneralDiscarderWins(general, specific);
        NewInterceptors([firstGeneral.value], [])
      else if HasDiscardNonGeneric(specific) then
        NoDiscarderRules(general, specific);
        NewInterceptors([], specific)
      else
        NoDiscarderRules(general, specific);
        NewInterceptors(general, specific)
    else
      NoDiscarderRules(general, specific);
      EmptyInterceptors
  }

  /** The private generic `ExecuteAsync`: resolve, select, await
      `BeforeAsync`, await the executable, await `AfterAsync` with its result
      or exception, then return the result or rethrow the exception. A failed
      resolution ends the call before anything is called. */
  function ExecuteAsync<E, I, R>(scope: Scope<E>, execute: (E, Option<I>) -> Outcome<R>, input: Option<I>): (r: Run<I, R>)
    ensures scope.executable.None? ==> r.outcome == Threw(ResolutionFailed) && r.trace == []
    ensures scope.executable.Some? ==>
              ResolvedRun(Chain(GetAsyncInterceptors(scope.general, scope.specific)),
                          execute(scope.executable.value, input), input, r)
  {
    match scope.executable
    case None => Run(Threw(ResolutionFailed), [])
    case Some(executable) =>
      var interceptors := GetAsyncInterceptors(scope.general, scope.specific);
      RunChain(Chain(interceptors), execute(executable, input), input)
  }

  /** `ExecuteAsync<TExecutableVoidAsync>()`: no input, no result;
      interceptors see `null` for both. */
  function ExecuteVoidAsync<E>(scope: Scope<E>, run: E -> Completion): (r: Run<Empty, Empty>)
    ensures scope.executable.None? ==> r.outcome == Threw(ResolutionFailed) && r.trace == []
    ensures scope.executable.Some? ==>
              ResolvedRun(Chain(GetAsyncInterceptors(scope.general, scope.specific)),
                          VoidOutcome(run(scope.executable.value)), None, r)
    ensures forall k :: 0 <= k < |r.trace| ==> r.trace[k].input == None
    ensures forall k :: 0 <= k < |r.trace| && r.trace[k].AfterCall? ==> r.trace[k].result == None
    ensures r.outcome.Returned? ==> r.outcome.value == None
  {
    var r := ExecuteAsync(scope, (x: E, _: Option<Empty>) => VoidOutcome(run(x)), None);
    if scope.executable.Some? then
      ResolvedRunPassesValues(Chain(GetAsyncInterceptors(scope.general, scope.specific)),
                              VoidOutcome(run(scope.executable.value)), None, r);
      r
    else
      r
  }

  /** `ExecuteAsync<TExecutableVoidAsync, TInput>(input)`: interceptors see the input
      and a `null` result. */
  function ExecuteVoidWithInputAsync<E, I>(scope: Scope<E>, run: (E, Option<I>) -> Completion, input: Option<I>): (r: Run<I, Empty>)
    ensures scope.executable.None? ==> r.outcome == Threw(ResolutionFailed) && r.trace == []
    ensures scope.executable.Some? ==>
              ResolvedRun(Chain(GetAsyncInterceptors(scope.general, scope.specific)),
                          VoidOutcome(run(scope.executable.value, input)), input, r)
    ensures forall k :: 0 <= k < |r.trace| ==> r.trace[k].input == input
    ensures forall k :: 0 <= k < |r.trace| && r.trace[k].AfterCall? ==> r.trace[k].result == None
    ensures r.outcome.Returned? ==> r.outcome.value == None
  {
    var r := ExecuteAsync(scope, (x: E, i: Option<I>) => VoidOutcome(run(x, i)), input);
    if scope.executable.Some? then
      ResolvedRunPassesValues(Chain(GetAsyncInterceptors(scope.general, scope.specific)),
                              VoidOutcome(run(scope.executable.value, input)), input, r);
      r
    else
      r
  }

  /** `ExecuteAsync<TExecutableAsync, TResult>()`: interceptors see a `null` input;
      the executable's result is returned unchanged. */
  function ExecuteWithResultAsync<E, R>(scope: Scope<E>, run: E -> Outcome<R>): (r: Run<Empty, R>)
    ensures scope.executable.None? ==> r.outcome == Threw(ResolutionFailed) && r.trace == []
    ensures scope.executable.Some? ==>
              ResolvedRun(Chain(GetAsyncInterceptors(scope.general, scope.specific)),
                          run(scope.executable.value), None, r)
    ensures forall k :: 0 <= k < |r.trace| ==> r.trace[k].input == None
  {
    var r := ExecuteAsync(scope, (x: E, _: Option<Empty>) => run(x), None);
    if scope.executable.Some? then
      ResolvedRunPassesValues(Chain(GetAsyncInterceptors(scope.general, scope.specific)),
                              run(scope.executable.value), None, r);
      r
    else
      r
  }

  /** `ExecuteAsync<TExecutableAsync, TInput, TResult>(input)`. */
  function ExecuteWithInputAndResultAsync<E, I, R>(scope: Scope<E>, run: (E, Option<I>) -> Outcome<R>, input: Option<I>): (r: Run<I, R>)
    ensures scope.executable.None? ==> r.outcome == Threw(ResolutionFailed) && r.trace == []
    ensures scope.executable.Some? ==>
              ResolvedRun(Chain(GetAsyncInterceptors(scope.general, scope.specific)),
                          run(scope.executable.value, input), input, r)
    ensures forall k :: 0 <= k < |r.trace| ==> r.trace[k].input == input
  {
    var r := ExecuteAsync(scope, run, input);
    if scope.executable.Some? then
      ResolvedRunPassesValues(Chain(GetAsyncInterceptors(scope.general, scope.specific)),
                              run(scope.executable.value, input), input, r);
      r
    else
      r
  }

  /** With no interceptor registered the chain is `EmptyAsyncInterceptors`, and a
      resolved execution is the executable call alone. */
  lemma NoAsyncInterceptorsNoEvents<E, I, R>(scope: Scope<E>, execute: (E, Option<I>) -> Outcome<R>, input: Option<I>)
    requires scope.executable.Some?
    requires scope.general == [] && scope.specific == []
    ensures GetAsyncInterceptors(scope.general, scope.specific) == EmptyInterceptors
    ensures ExecuteAsync(scope, execute, input) == Run(execute(scope.executable.value, input), [Executed(input)])
  {
    var r := ExecuteAsync(scope, execute, input);
    assert |r.trace| == 1;
  }

  /** The asynchronous selector and executor agree with the synchronous
      ones on every registration and every executable. */
  lemma AsyncAgreesWithSync<E, I, R>(scope: Scope<E>, execute: (E, Option<I>) -> Outcome<R>, input: Option<I>)
    ensures GetAsyncInterceptors(scope.general, scope.specific)
            == NetCoreExecutor.GetInterceptors(scope.general, scope.specific)
    ensures ExecuteAsync(scope, execute, input) == NetCoreExecutor.Execute(scope, execute, input)
  {
    var a := GetAsyncInterceptors(scope.general, scope.specific);
    var s := NetCoreExecutor.GetInterceptors(scope.general, scope.specific);
    SelectionRulesAreDeterministic(scope.general, scope.specific, a, s);
    assert a == s;
    if scope.executable.Some? {
      ResolvedRunIsUnique(Chain(a), execute(scope.executable.value, input), input,
                          ExecuteAsync(scope, execute, input), NetCoreExecutor.Execute(scope, execute, input));
    }
  }
}
