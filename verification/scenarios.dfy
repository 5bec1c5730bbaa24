/** The executor's unit-test scenarios, restated as lemmas about the model:
    two general interceptors with ordering indices 1 and 3, one specific
    interceptor with index 2, and various discard markers on them. */
module Scenarios {
  import opened Wrappers
  import opened Interception
  import opened Selection
  import opened Execution
  import opened NetCoreExecutor
  import NetCoreExecutorAsync

  function Plain(id: nat, ordering: int): Interceptor
  {
    Interceptor(id, ordering, false, false, None)
  }

  function Discarding(id: nat, ordering: int): Interceptor
  {
    Interceptor(id, ordering, true, false, None)
  }

  /** The executable of the tests: returns "return value hello" for
      "parameter hello". */
  function Echo(exe: int, input: Option<string>): Outcome<string>
  {
    if input == Some("parameter hello") then Returned(Some("return value hello")) else Returned(None)
  }

  function Throwing(exe: int, input: Option<string>): Outcome<string>
  {
    Threw(Raised(42))
  }

  function Completes(exe: int): Completion
  {
    Completed
  }

  /** A resolved run over a three-member chain whose `Before` calls all
      complete, spelled out. */
  lemma ThreeMemberRun<I, R>(chain: seq<Member>, o: Outcome<R>, input: Option<I>, r: Run<I, R>)
    requires |chain| == 3 && BeforeCompletes(chain)
    requires ResolvedRun(chain, o, input, r)
    ensures r == Run(o, [BeforeCall(chain[0], input), BeforeCall(chain[1], input), BeforeCall(chain[2], input),
                         Executed(input),
                         AfterCall(chain[2], input, ResultOf(o), ExceptionOf(o)),
                         AfterCall(chain[1], input, ResultOf(o), ExceptionOf(o)),
                         AfterCall(chain[0], input, ResultOf(o), ExceptionOf(o))])
  {
  }

  /** A resolved run over a one-member chain whose `Before` completes. */
  lemma OneMemberRun<I, R>(chain: seq<Member>, o: Outcome<R>, input: Option<I>, r: Run<I, R>)
    requires |chain| == 1 && BeforeCompletes(chain)
    requires ResolvedRun(chain, o, input, r)
    ensures r == Run(o, [BeforeCall(chain[0], input), Executed(input),
                         AfterCall(chain[0], input, ResultOf(o), ExceptionOf(o))])
  {
  }

  /** With no discard markers, general 1, specific 2, general 3 merge into
      that order. */
  lemma PlainChain(g1: Interceptor, g2: Interceptor, s: Interceptor)
    requires g1.ordering == 1 && s.ordering == 2 && g2.ordering == 3
    requires !g1.discardOthers && !g2.discardOthers && !s.discardOthers
    requires !s.discardNonGeneric
    ensures Chain(GetInterceptors([g1, g2], [s])) == [Member(true, 0, g1), Member(false, 0, s), Member(true, 1, g2)]
  {
    var expected := [Member(true, 0, g1), Member(false, 0, s), Member(true, 1, g2)];
    assert !HasDiscarder([g1, g2]) && !HasDiscarder([s]) && !HasDiscardNonGeneric([s]);
    assert Registered([s], false) + Registered([g1, g2], true) == [expected[1], expected[0], expected[2]];
    assert MergedChain(expected, [g1, g2], [s]);
    MergedChainIsUnique(Chain(GetInterceptors([g1, g2], [s])), expected, [g1, g2], [s]);
  }

  /** A run of the three plain interceptors of `PlainChain` around an
      executable with input and result. */
  lemma PlainRun<I, R>(g1: Interceptor, g2: Interceptor, s: Interceptor, exe: int,
                       run: (int, Option<I>) -> Outcome<R>, input: Option<I>)
    requires g1.ordering == 1 && s.ordering == 2 && g2.ordering == 3
    requires !g1.discardOthers && !g2.discardOthers && !s.discardOthers
    requires !s.discardNonGeneric
    requires g1.beforeFault.None? && g2.beforeFault.None? && s.beforeFault.None?
    ensures var m1, m2, m3, o := Member(true, 0, g1), Member(false, 0, s), Member(true, 1, g2), run(exe, input);
            ExecuteWithInputAndResult(Scope(Some(exe), [g1, g2], [s]), run, input)
            == Run(o, [BeforeCall(m1, input), BeforeCall(m2, input), BeforeCall(m3, input),
                       Executed(input),
                       AfterCall(m3, input, ResultOf(o), ExceptionOf(o)),
                       AfterCall(m2, input, ResultOf(o), ExceptionOf(o)),
                       AfterCall(m1, input, ResultOf(o), ExceptionOf(o))])
  {
    PlainChain(g1, g2, s);
    var chain := Chain(GetInterceptors([g1, g2], [s]));
    ThreeMemberRun(chain, run(exe, input), input, ExecuteWithInputAndResult(Scope(Some(exe), [g1, g2], [s]), run, input));
  }

  /** The same three interceptors around a void executable. */
  lemma PlainVoidRun(g1: Interceptor, g2: Interceptor, s: Interceptor, exe: int)
    requires g1.ordering == 1 && s.ordering == 2 && g2.ordering == 3
    requires !g1.discardOthers && !g2.discardOthers && !s.discardOthers
    requires !s.discardNonGeneric
    requires g1.beforeFault.None? && g2.beforeFault.None? && s.beforeFault.None?
    ensures var m1, m2, m3 := Member(true, 0, g1), Member(false, 0, s), Member(true, 1, g2);
            ExecuteVoid(Scope(Some(exe), [g1, g2], [s]), Completes)
            == Run(Returned(None),
                   [BeforeCall(m1, None), BeforeCall(m2, None), BeforeCall(m3, None),
                    Executed(None),
                    AfterCall(m3, None, None, None), AfterCall(m2, None, None, None),
                    AfterCall(m1, None, None, None)])
  {
    PlainChain(g1, g2, s);
    var chain := Chain(GetInterceptors([g1, g2], [s]));
    ThreeMemberRun(chain, VoidOutcome(Completes(exe)), None, ExecuteVoid(Scope(Some(exe), [g1, g2], [s]), Completes));
  }

  /** Interceptors are called in ascending order before the executable and
      in descending order after it, and the result comes back unchanged. */
  lemma InterceptorsAreCalledInOrder()
    ensures var g1, s, g2 := Plain(1, 1), Plain(2, 2), Plain(3, 3);
            var m1, m2, m3 := Member(true, 0, g1), Member(false, 0, s), Member(true, 1, g2);
            var input, output := Some("parameter hello"), Some("return value hello");
            ExecuteWithInputAndResult(Scope(Some(7), [g1, g2], [s]), Echo, input)
            == Run(Returned(output),
                   [BeforeCall(m1, input), BeforeCall(m2, input), BeforeCall(m3, input),
                    Executed(input),
                    AfterCall(m3, input, output, None), AfterCall(m2, input, output, None),
                    AfterCall(m1, input, output, None)])
  {
    PlainRun(Plain(1, 1), Plain(3, 3), Plain(2, 2), 7, Echo, Some("parameter hello"));
  }

  /** An exception from the executable reaches every `After`, in descending
      order, with the default result, and is rethrown. */
  lemma ExceptionIsPassedToInterceptors()
    ensures var g1, s, g2 := Plain(1, 1), Plain(2, 2), Plain(3, 3);
            var m1, m2, m3 := Member(true, 0, g1), Member(false, 0, s), Member(true, 1, g2);
            var input, e := Some("parameter hello"), Raised(42);
            ExecuteWithInputAndResult(Scope(Some(7), [g1, g2], [s]), Throwing, input)
            == Run(Threw(e),
                   [BeforeCall(m1, input), BeforeCall(m2, input), BeforeCall(m3, input),
                    Executed(input),
                    AfterCall(m3, input, None, Some(e)), AfterCall(m2, input, None, Some(e)),
                    AfterCall(m1, input, None, Some(e))])
  {
    PlainRun(Plain(1, 1), Plain(3, 3), Plain(2, 2), 7, Throwing, Some("parameter hello"));
  }

  /** The same ordering holds for the asynchronous executor. */
  lemma AsyncInterceptorsAreCalledInOrder()
    ensures var g1, s, g2 := Plain(1, 1), Plain(2, 2), Plain(3, 3);
            var m1, m2, m3 := Member(true, 0, g1), Member(false, 0, s), Member(true, 1, g2);
            var input, output := Some("parameter hello"), Some("return value hello");
            NetCoreExecutorAsync.ExecuteWithInputAndResultAsync(Scope(Some(7), [g1, g2], [s]), Echo, input)
            == Run(Returned(output),
                   [BeforeCall(m1, input), BeforeCall(m2, input), BeforeCall(m3, input),
                    Executed(input),
                    AfterCall(m3, input, output, None), AfterCall(m2, input, output, None),
                    AfterCall(m1, input, output, None)])
  {
    InterceptorsAreCalledInOrder();
    NetCoreExecutorAsync.AsyncAgreesWithSync(Scope(Some(7), [Plain(1, 1), Plain(3, 3)], [Plain(2, 2)]), Echo, Some("parameter hello"));
  }

  /** The run of a void executable when only `m` is selected. */
  function LoneRun(m: Member): Run<Empty, Empty>
  {
    Run(Returned(None), [BeforeCall(m, None), Executed(None), AfterCall(m, None, None, None)])
  }

  /** When the selector keeps `m` alone, a void run calls `Before`, the
      executable and `After` once each. */
  lemma LoneVoidRun(scope: Scope<int>, m: Member)
    requires scope.executable.Some? && m.interceptor.beforeFault.None?
    ensures Chain(GetInterceptors(scope.general, scope.specific)) == [m] ==>
              ExecuteVoid(scope, Completes) == LoneRun(m)
  {
    if Chain(GetInterceptors(scope.general, scope.specific)) == [m] {
      OneMemberRun([m], VoidOutcome(Completes(scope.executable.value)), None, ExecuteVoid(scope, Completes));
    }
  }

  /** All three discard: the general one with index 1 undercuts the specific
      one with index 2 and runs alone. */
  lemma SmallestDiscarderRunsAlone()
    ensures var g1, s, g2 := Discarding(1, 1), Discarding(2, 2), Discarding(3, 3);
            ExecuteVoid(Scope(Some(7), [g1, g2], [s]), Completes) == LoneRun(Member(true, 0, g1))
  {
    var g1, s, g2 := Discarding(1, 1), Discarding(2, 2), Discarding(3, 3);
    assert g1 in [g1, g2] && s in [s];
    assert Winner([g1, g2]) == g1 && Winner([s]) == s;
    LoneVoidRun(Scope(Some(7), [g1, g2], [s]), Member(true, 0, g1));
  }

  /** All three discard, and the specific one also discards non-generic
      interceptors: it runs alone although its index is larger. */
  lemma DiscardNonGenericDiscarderRunsAlone()
    ensures var g1, s, g2 := Discarding(1, 1), Interceptor(2, 2, true, true, None), Discarding(3, 3);
            ExecuteVoid(Scope(Some(7), [g1, g2], [s]), Completes) == LoneRun(Member(false, 0, s))
  {
    var g1, s, g2 := Discarding(1, 1), Interceptor(2, 2, true, true, None), Discarding(3, 3);
    assert g1 in [g1, g2] && s in [s];
    assert Winner([s]) == s;
    LoneVoidRun(Scope(Some(7), [g1, g2], [s]), Member(false, 0, s));
  }

  /** Only the specific interceptor discards: it runs alone. */
  lemma SpecificDiscarderRunsAlone()
    ensures var g1, s, g2 := Plain(1, 1), Discarding(2, 2), Plain(3, 3);
            ExecuteVoid(Scope(Some(7), [g1, g2], [s]), Completes) == LoneRun(Member(false, 0, s))
  {
    var g1, s, g2 := Plain(1, 1), Discarding(2, 2), Plain(3, 3);
    assert s in [s] && !HasDiscarder([g1, g2]);
    assert Winner([s]) == s;
    LoneVoidRun(Scope(Some(7), [g1, g2], [s]), Member(false, 0, s));
  }

  /** Only the general interceptor with index 3 discards: it runs alone. */
  lemma GeneralDiscarderRunsAlone()
    ensures var g1, s, g2 := Plain(1, 1), Plain(2, 2), Discarding(3, 3);
            ExecuteVoid(Scope(Some(7), [g1, g2], [s]), Completes) == LoneRun(Member(true, 0, g2))
  {
    var g1, s, g2 := Plain(1, 1), Plain(2, 2), Discarding(3, 3);
    assert g2 in [g1, g2] && !HasDiscarder([s]);
    assert Winner([g1, g2]) == g2;
    LoneVoidRun(Scope(Some(7), [g1, g2], [s]), Member(true, 0, g2));
  }

  /** A specific interceptor that discards non-generic interceptors, with no
      discarder around, leaves itself alone in the chain. */
  lemma DiscardNonGenericDropsGeneral()
    ensures var g1, s, g2 := Plain(1, 1), Interceptor(2, 2, false, true, None), Plain(3, 3);
            ExecuteVoid(Scope(Some(7), [g1, g2], [s]), Completes) == LoneRun(Member(false, 0, s))
  {
    var g1, s, g2 := Plain(1, 1), Interceptor(2, 2, false, true, None), Plain(3, 3);
    assert s in [s];
    assert !HasDiscarder([g1, g2]) && !HasDiscarder([s]);
    var chain := Chain(GetInterceptors([g1, g2], [s]));
    assert Registered([s], false) + Registered([], true) == [Member(false, 0, s)];
    assert MergedChain([Member(false, 0, s)], [], [s]);
    MergedChainIsUnique(chain, [Member(false, 0, s)], [], [s]);
    LoneVoidRun(Scope(Some(7), [g1, g2], [s]), Member(false, 0, s));
  }

  /** The discard-non-generic marker on general interceptors has no effect:
      all three run, merged by index. */
  lemma GeneralDiscardNonGenericIsIgnored()
    ensures var g1, s, g2 := Interceptor(1, 1, false, true, None), Plain(2, 2), Interceptor(3, 3, false, true, None);
            var m1, m2, m3 := Member(true, 0, g1), Member(false, 0, s), Member(true, 1, g2);
            ExecuteVoid(Scope(Some(7), [g1, g2], [s]), Completes)
            == Run(Returned(None),
                   [BeforeCall(m1, None), BeforeCall(m2, None), BeforeCall(m3, None),
                    Executed(None),
                    AfterCall(m3, None, None, None), AfterCall(m2, None, None, None),
                    AfterCall(m1, None, None, None)])
  {
    PlainVoidRun(Interceptor(1, 1, false, true, None), Interceptor(3, 3, false, true, None), Plain(2, 2), 7);
  }
}
