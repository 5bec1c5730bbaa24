/** `NetCoreExecutor`: resolves an executable in a fresh scope, selects the
    interceptor chain and runs Before, the executable and After around it. */
module NetCoreExecutor {
  import opened Wrappers
  import opened Interception
  import opened Selection
  import opened Execution

  /** `GetInterceptors`: chooses the chain from the general and the specific
      interceptors registered in the scope. */
  function GetInterceptors(general: seq<Interceptor>, specific: seq<Interceptor>): (r: Interceptors)
    ensures SelectionRules(general, specific, r)
  {
    if |specific| > 0 || |general| > 0 then
      var firstSpecific := FirstDiscarder(specific);
      var firstGeneral := FirstDiscarder(general);
      if firstSpecific.Some? && firstGeneral.Some? then
        if firstSpecific.value.ordering <= firstGeneral.value.ordering || firstSpecific.value.discardNonGeneric then
          SpecificDiscarderWins(general, specific);
          NewInterceptors([], [firstSpecific.value])
        else
          GeneralDiscarderWins(general, specific);
          NewInterceptors([firstGeneral.value], [])
      else if firstSpecific.Some? then
        SpecificDiscarderWins(general, specific);
        NewInterceptors([], [firstSpecific.value])
      else if firstGeneral.Some? then
        GeneralDiscarderWins(general, specific);
        NewInterceptors([firstGeneral.value], [])
      else if HasDiscardNonGeneric(specific) then
        NoDiscarderRules(general, specific);
        NewInterceptors([], specific)
      else
        NoDiscarderRules(general, specific);
        NewInterceptors(general, specific)
    else
      NoDiscarderRules(general, specific);
      EmptyInterceptors
  }

  /** Whenever some interceptor discards others, exactly one interceptor
      runs: a discarder with the smallest ordering index on its own side. */
  lemma DiscardingLeavesOne(general: seq<Interceptor>, specific: seq<Interceptor>)
    requires HasDiscarder(general) || HasDiscarder(specific)
    ensures |Chain(GetInterceptors(general, specific))| == 1
    ensures var m := Chain(GetInterceptors(general, specific))[0];
            var side := if m.isGeneral then general else specific;
            && m.interceptor in side
            && m.interceptor.discardOthers
            && forall x :: x in side && x.discardOthers ==> m.interceptor.ordering <= x.ordering
  {
  }

  /** The private generic `Execute`: resolve, select, run `Before`, invoke
      the executable, run `After` with its result or exception, then return
      the result or rethrow the exception. A failed resolution ends the call
      before anything is called. */
  function Execute<E, I, R>(scope: Scope<E>, execute: (E, Option<I>) -> Outcome<R>, input: Option<I>): (r: Run<I, R>)
    ensures scope.executable.None? ==> r.outcome == Threw(ResolutionFailed) && r.trace == []
    ensures scope.executable.Some? ==>
              ResolvedRun(Chain(GetInterceptors(scope.general, scope.specific)),
                          execute(scope.executable.value, input), input, r)
  {
    match scope.executable
    case None => Run(Threw(ResolutionFailed), [])
    case Some(executable) =>
      var interceptors := GetInterceptors(scope.general, scope.specific);
      RunChain(Chain(interceptors), execute(executable, input), input)
  }

  /** `Execute<TExecutableVoid>()`: no input, no result; interceptors see
      `null` for both. */
  function ExecuteVoid<E>(scope: Scope<E>, run: E -> Completion): (r: Run<Empty, Empty>)
    ensures scope.executable.None? ==> r.outcome == Threw(ResolutionFailed) && r.trace == []
    ensures scope.executable.Some? ==>
              ResolvedRun(Chain(GetInterceptors(scope.general, scope.specific)),
                          VoidOutcome(run(scope.executable.value)), None, r)
    ensures forall k :: 0 <= k < |r.trace| ==> r.trace[k].input == None
    ensures forall k :: 0 <= k < |r.trace| && r.trace[k].AfterCall? ==> r.trace[k].result == None
    ensures r.outcome.Returned? ==> r.outcome.value == None
  {
    var r := Execute(scope, (x: E, _: Option<Empty>) => VoidOutcome(run(x)), None);
    if scope.executable.Some? then
      ResolvedRunPassesValues(Chain(GetInterceptors(scope.general, scope.specific)),
                              VoidOutcome(run(scope.executable.value)), None, r);
      r
    else
      r
  }

  /** `Execute<TExecutableVoid, TInput>(input)`: interceptors see the input
      and a `null` result. */
  function ExecuteVoidWithInput<E, I>(scope: Scope<E>, run: (E, Option<I>) -> Completion, input: Option<I>): (r: Run<I, Empty>)
    ensures scope.executable.None? ==> r.outcome == Threw(ResolutionFailed) && r.trace == []
    ensures scope.executable.Some? ==>
              ResolvedRun(Chain(GetInterceptors(scope.general, scope.specific)),
                          VoidOutcome(run(scope.executable.value, input)), input, r)
    ensures forall k :: 0 <= k < |r.trace| ==> r.trace[k].input == input
    ensures forall k :: 0 <= k < |r.trace| && r.trace[k].AfterCall? ==> r.trace[k].result == None
    ensures r.outcome.Returned? ==> r.outcome.value == None
  {
    var r := Execute(scope, (x: E, i: Option<I>) => VoidOutcome(run(x, i)), input);
    if scope.executable.Some? then
      ResolvedRunPassesValues(Chain(GetInterceptors(scope.general, scope.specific)),
                              VoidOutcome(run(scope.executable.value, input)), input, r);
      r
    else
      r
  }

  /** `Execute<TExecutable, TResult>()`: interceptors see a `null` input;
      the executable's result is returned unchanged. */
  function ExecuteWithResult<E, R>(scope: Scope<E>, run: E -> Outcome<R>): (r: Run<Empty, R>)
    ensures scope.executable.None? ==> r.outcome == Threw(ResolutionFailed) && r.trace == []
    ensures scope.executable.Some? ==>
              ResolvedRun(Chain(GetInterceptors(scope.general, scope.specific)),
                          run(scope.executable.value), None, r)
    ensures forall k :: 0 <= k < |r.trace| ==> r.trace[k].input == None
  {
    var r := Execute(scope, (x: E, _: Option<Empty>) => run(x), None);
    if scope.executable.Some? then
      ResolvedRunPassesValues(Chain(GetInterceptors(scope.general, scope.specific)),
                              run(scope.executable.value), None, r);
      r
    else
      r
  }

  /** `Execute<TExecutable, TInput, TResult>(input)`. */
  function ExecuteWithInputAndResult<E, I, R>(scope: Scope<E>, run: (E, Option<I>) -> Outcome<R>, input: Option<I>): (r: Run<I, R>)
    ensures scope.executable.None? ==> r.outcome == Threw(ResolutionFailed) && r.trace == []
    ensures scope.executable.Some? ==>
              ResolvedRun(Chain(GetInterceptors(scope.general, scope.specific)),
                          run(scope.executable.value, input), input, r)
    ensures forall k :: 0 <= k < |r.trace| ==> r.trace[k].input == input
  {
    var r := Execute(scope, run, input);
    if scope.executable.Some? then
      ResolvedRunPassesValues(Chain(GetInterceptors(scope.general, scope.specific)),
                              run(scope.executable.value, input), input, r);
      r
    else
      r
  }

  /** With no interceptor registered the chain is `EmptyInterceptors`, and a
      resolved execution is the executable call alone. */
  lemma NoInterceptorsNoEvents<E, I, R>(scope: Scope<E>, execute: (E, Option<I>) -> Outcome<R>, input: Option<I>)
    requires scope.executable.Some?
    requires scope.general == [] && scope.specific == []
    ensures GetInterceptors(scope.general, scope.specific) == EmptyInterceptors
    ensures Execute(scope, execute, input) == Run(execute(scope.executable.value, input), [Executed(input)])
  {
    var r := Execute(scope, execute, input);
    assert |r.trace| == 1;
  }
}
