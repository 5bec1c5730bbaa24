# Interceptor chains of the .NET Core executor, in Dafny

This project models the interceptor pipeline of `NetCoreExecutor` and
`NetCoreExecutorAsync` from M.Executables.Executors.NetCore. An execution
first resolves the executable in a fresh scope. It then selects an
interceptor chain from the general interceptors (`IExecutionInterceptor`)
and the interceptors specific to the executable's shape
(`IExecutionInterceptor<TExecutable, TInput, TResult>`). Finally it runs
every `Before` front to back, the executable, and every `After` back to
front, passing on the result or the exception.

Modules, in dependency order:

- `Wrappers`: `Option`. It stands for `null`, `default(TResult)` and `IEmpty`.
- `Sorting`: a stable insertion sort. It stands for LINQ's `OrderBy`, which is stable, and for `OrderBy(...).FirstOrDefault()`.
- `Interception`: the core types. `Interceptor` carries its `OrderingIndex` and the two discard markers. `Member` is the source's `(isGeneral, index)` pair together with the interceptor it points at; the ordering index is read from that interceptor (`Interception.Key`). `Interceptors` is either `EmptyInterceptors` or the `Interceptors` class with its sorted tuple array. The module also holds the `Before` and `After` walks.
- `Selection`: the discarder helpers used by `GetInterceptors`. `SelectionRules` states the selection rules without saying how they are computed.
- `Execution`: the outcome, scope and run types. `ResolvedRun` is the shape of the call trace once the executable has been resolved.
- `NetCoreExecutor` and `NetCoreExecutorAsync`: the selectors, the private generic `Execute`/`ExecuteAsync`, and the four public adapters of each class.
- `Scenarios`: the unit-test scenarios of both executors, restated as lemmas.

Four points of the code shape the model:

- **Ties on `OrderingIndex`.** Specific tuples are concatenated before general ones and then stably sorted. On equal indices a specific interceptor therefore precedes a general one, and registration order holds only within each group. `Interception.Precedes` states this order.
- **The second marker.** `IDiscardNonGenericInterceptors` has an effect only on specific interceptors. On general ones it is ignored.
- **When `After` runs.** `After` runs only once every `Before` has completed. `Before` sits outside the `try`, so a throwing `Before` ends the call with no `After` at all.
- **A missing executable.** `GetRequiredService` throws, and nothing else happens. This is modelled as the outcome `Threw(ResolutionFailed)` with an empty trace.

## Model

| member | source | states |
|---|---|---|
| Sorting.Insert | src/M.Executables.Executors.NetCore/NetCoreExecutor.cs:164 | inserting keeps exactly the old elements plus the new one and keeps a sorted sequence sorted (the step of the stable `OrderBy`) |
| Sorting.SortBy | src/M.Executables.Executors.NetCore/NetCoreExecutor.cs:162-165 | the sort of the tuple array is a permutation of its input and is non-decreasing by ordering index |
| Sorting.SortByIsStable | src/M.Executables.Executors.NetCore/NetCoreExecutor.cs:162-165 | the sort is stable: elements with equal keys keep their original relative order |
| Sorting.ArgMin | src/M.Executables.Executors.NetCore/NetCoreExecutor.cs:91-92 | the reference for `OrderBy(OrderingIndex).FirstOrDefault()`: the position of the first element with the smallest key |
| Sorting.SortHeadIsFirstMinimum | src/M.Executables.Executors.NetCore/NetCoreExecutor.cs:91-92 | the head of the stable sort is the first element, in registration order, with the smallest ordering index |
| Interception.NewInterceptors | src/M.Executables.Executors.NetCore/NetCoreExecutor.cs:156-166 | the `Interceptors` constructor holds every specific and every general interceptor exactly once, ordered by index, specifics before generals on ties, registration order within each group |
| Interception.MergedChainIsUnique | src/M.Executables.Executors.NetCore/NetCoreExecutor.cs:162-165 | the ordering rule of the merged chain admits only one chain for given registrations |
| Interception.FirstFault | src/M.Executables.Executors.NetCore/NetCoreExecutor.cs:186-197 | the first chain member whose `Before` throws: it throws and none before it does |
| Interception.BeforeEach | src/M.Executables.Executors.NetCore/NetCoreExecutor.cs:184-198 | `Before` calls the whole chain front to back when no member throws; otherwise exactly the members up to the first throwing one are called and that exception escapes |
| Interception.AfterEach | src/M.Executables.Executors.NetCore/NetCoreExecutor.cs:168-182 | `After` calls every member once, back to front, each with the same input, result and exception |
| Interception.AfterReversesBefore | src/M.Executables.Executors.NetCore/NetCoreExecutor.cs:168-198 | when every `Before` completes, the `After` walk visits exactly the members `Before` called, in reverse order, and the `Before` events visit them in calling order |
| Selection.Discarders | src/M.Executables.Executors.NetCore/NetCoreExecutor.cs:91-92 | `Where(x is IDiscardOtherInterceptors)` keeps exactly the discarders |
| Selection.DiscarderPositions | src/M.Executables.Executors.NetCore/NetCoreExecutor.cs:91-92 | the reference for `Where`: the ascending positions of exactly the discarders of a side |
| Selection.DiscardersFollowPositions | src/M.Executables.Executors.NetCore/NetCoreExecutor.cs:91-92 | `Where` keeps registration order: its `k`th element is the discarder at the `k`th discarder position, and it has one element per position |
| Selection.Winner | src/M.Executables.Executors.NetCore/NetCoreExecutor.cs:91-92 | the winning discarder of one side is a registered discarder with the smallest ordering index among that side's discarders, and it sits at a position before which every discarder has a strictly larger index: on ties the first registered wins |
| Selection.FirstDiscarder | src/M.Executables.Executors.NetCore/NetCoreExecutor.cs:91-92 | `FirstOrDefault` is null exactly when the side has no discarder; otherwise it is the winner, a discarder of the side with the smallest index |
| Selection.SelectionRulesAreDeterministic | src/M.Executables.Executors.NetCore/NetCoreExecutor.cs:89-123 | the selection rules fix the chain: two selectors that obey them choose the same chain |
| NetCoreExecutor.DiscardingLeavesOne | src/M.Executables.Executors.NetCore/NetCoreExecutor.cs:93-113 | once any interceptor discards others, exactly one runs, and it is a discarder of its side with that side's smallest discarder index |
| Selection.LoneInterceptorChain | src/M.Executables.Executors.NetCore/NetCoreExecutor.cs:97-112 | a chain built from `new[] { x }` holds only `x`, at index 0 of its array |
| Selection.SpecificDiscarderWins | src/M.Executables.Executors.NetCore/NetCoreExecutor.cs:95-107 | the branches that return the specific discarder alone obey the selection rules |
| Selection.GeneralDiscarderWins | src/M.Executables.Executors.NetCore/NetCoreExecutor.cs:99-112 | the branches that return the general discarder alone obey the selection rules |
| Selection.NoDiscarderRules | src/M.Executables.Executors.NetCore/NetCoreExecutor.cs:115-123 | the branches without a discarder obey the selection rules: only the specifics when one of them discards non-generic ones, everything merged otherwise, the empty chain when nothing is registered |
| Execution.RunChain | src/M.Executables.Executors.NetCore/NetCoreExecutor.cs:64-78 | the run over a selected chain is a resolved run: the `Before` calls in chain order, the executable once, the `After` calls in reverse order with its result or exception, and the same outcome; or, when a `Before` throws, only the calls up to it and its exception |
| Execution.ResolvedRunIsUnique | src/M.Executables.Executors.NetCore/NetCoreExecutor.cs:64-78 | once the executable is resolved, the chain, the executable's behaviour and the input determine the whole call |
| Execution.ResolvedRunPassesValues | src/M.Executables.Executors.NetCore/NetCoreExecutor.cs:66-78 | every call receives the input; every `After` receives the executable's result, or the default on a throw, and its exception, or null on success; a normal return hands back the executable's result unchanged |
| Execution.ExecutedOnceBetweenPhases | src/M.Executables.Executors.NetCore/NetCoreExecutor.cs:64-78 | the executable runs exactly once, between the last `Before` and the first `After`, and not at all when a `Before` throws |
| Execution.AfterMirrorsBefore | src/M.Executables.Executors.NetCore/NetCoreExecutor.cs:66-76 | in a run, `After` visits the reverse of `Before`'s visits; on a throw every `After` gets the default result and that exception, and the same exception is rethrown |
| NetCoreExecutor.GetInterceptors | src/M.Executables.Executors.NetCore/NetCoreExecutor.cs:82-124 | the selector obeys the selection rules: discarder tie-break by index or `IDiscardNonGenericInterceptors`, a single side's discarder alone, only specifics under a specific non-generic discarder, else the full merge, else empty |
| NetCoreExecutor.Execute | src/M.Executables.Executors.NetCore/NetCoreExecutor.cs:57-80 | a failed resolution throws before any call; otherwise the call is the resolved run over the selected chain |
| NetCoreExecutor.ExecuteVoid | src/M.Executables.Executors.NetCore/NetCoreExecutor.cs:25-26 | the void adapter runs the resolved run, and interceptors see a null input and a null result |
| NetCoreExecutor.ExecuteVoidWithInput | src/M.Executables.Executors.NetCore/NetCoreExecutor.cs:34-35 | interceptors see the input and a null result |
| NetCoreExecutor.ExecuteWithResult | src/M.Executables.Executors.NetCore/NetCoreExecutor.cs:43-44 | interceptors see a null input; the executable's result is returned |
| NetCoreExecutor.ExecuteWithInputAndResult | src/M.Executables.Executors.NetCore/NetCoreExecutor.cs:54-55 | every call sees the input; the call is the resolved run of the executable |
| NetCoreExecutor.NoInterceptorsNoEvents | src/M.Executables.Executors.NetCore/NetCoreExecutor.cs:133-148 | with nothing registered the chain is `EmptyInterceptors` and the call is the executable alone |
| NetCoreExecutorAsync.GetAsyncInterceptors | src/M.Executables.Executors.NetCore/NetCoreExecutorAsync.cs:84-126 | the asynchronous selector obeys the same selection rules |
| NetCoreExecutorAsync.ExecuteAsync | src/M.Executables.Executors.NetCore/NetCoreExecutorAsync.cs:59-82 | a failed resolution throws before any call; otherwise the call is the resolved run over the selected asynchronous chain |
| NetCoreExecutorAsync.ExecuteVoidAsync | src/M.Executables.Executors.NetCore/NetCoreExecutorAsync.cs:26-27 | interceptors see a null input and a null result |
| NetCoreExecutorAsync.ExecuteVoidWithInputAsync | src/M.Executables.Executors.NetCore/NetCoreExecutorAsync.cs:36-37 | interceptors see the input and a null result |
| NetCoreExecutorAsync.ExecuteWithResultAsync | src/M.Executables.Executors.NetCore/NetCoreExecutorAsync.cs:45-46 | interceptors see a null input; the executable's result is returned |
| NetCoreExecutorAsync.ExecuteWithInputAndResultAsync | src/M.Executables.Executors.NetCore/NetCoreExecutorAsync.cs:56-57 | every call sees the input; the call is the resolved run of the executable |
| NetCoreExecutorAsync.NoAsyncInterceptorsNoEvents | src/M.Executables.Executors.NetCore/NetCoreExecutorAsync.cs:135-146 | with nothing registered the chain is `EmptyAsyncInterceptors` and the call is the executable alone |
| NetCoreExecutorAsync.AsyncAgreesWithSync | src/M.Executables.Executors.NetCore/NetCoreExecutorAsync.cs:59-126 | the asynchronous selector and executor choose the same chain and produce the same call as the synchronous ones |
| Scenarios.PlainChain | tests/M.Executables.Executors.NetCore.UnitTests/NetCoreExecutorTests.cs:63-93 | general 1, specific 2 and general 3 without markers merge into that order |
| Scenarios.InterceptorsAreCalledInOrder | tests/M.Executables.Executors.NetCore.UnitTests/NetCoreExecutorTests.cs:63-93 | `Before` ascending, the executable, `After` descending with "return value hello", which is returned |
| Scenarios.ExceptionIsPassedToInterceptors | tests/M.Executables.Executors.NetCore.UnitTests/NetCoreExecutorTests.cs:96-126 | the executable's exception reaches every `After`, in descending order, with the default result, and is rethrown |
| Scenarios.AsyncInterceptorsAreCalledInOrder | tests/M.Executables.Executors.NetCore.UnitTests/NetCoreAsyncExecutorTests.cs:64-94 | the same ordering for the asynchronous executor |
| Scenarios.PlainVoidRun | tests/M.Executables.Executors.NetCore.UnitTests/NetCoreExecutorTests.cs:128-157 | three plain interceptors around a void executable: Before ascending with a null input, the call, After descending with a null result and no exception |
| Scenarios.SmallestDiscarderRunsAlone | tests/M.Executables.Executors.NetCore.UnitTests/NetCoreExecutorTests.cs:160-187 | all three discard: the general one with index 1 runs alone |
| Scenarios.DiscardNonGenericDiscarderRunsAlone | tests/M.Executables.Executors.NetCore.UnitTests/NetCoreExecutorTests.cs:189-216 | the specific discarder that also discards non-generic interceptors runs alone despite its larger index |
| Scenarios.SpecificDiscarderRunsAlone | tests/M.Executables.Executors.NetCore.UnitTests/NetCoreExecutorTests.cs:218-245 | the only discarder, a specific one, runs alone |
| Scenarios.GeneralDiscarderRunsAlone | tests/M.Executables.Executors.NetCore.UnitTests/NetCoreExecutorTests.cs:247-274 | the only discarder, a general one with index 3, runs alone |
| Scenarios.DiscardNonGenericDropsGeneral | tests/M.Executables.Executors.NetCore.UnitTests/NetCoreExecutorTests.cs:276-303 | a specific `IDiscardNonGenericInterceptors` interceptor drops both general ones |
| Scenarios.GeneralDiscardNonGenericIsIgnored | tests/M.Executables.Executors.NetCore.UnitTests/NetCoreExecutorTests.cs:305-333 | the marker on general interceptors has no effect: all three run, merged by index |

## Left out

- Dependency injection: `CreateScope`, `GetRequiredService`, `GetServices` and the disposal of the scope are not modelled. The scope is an input: an optional executable plus the general and specific interceptor lists in registration order. A missing registration is the outcome `ResolutionFailed`.
- `async`, `Task` and `ConfigureAwait`: awaiting adds no observable step, so the asynchronous executor is modelled as the same sequential trace. Its chain classes `AsyncInterceptors` and `EmptyAsyncInterceptors` are the same `Interceptors` datatype.
- An `After` that itself throws, which inside the `catch` would hide the original exception: the code does not guard against it, and the model assumes `After` returns normally.
- NetCoreExecutor.Execute: the exception rethrown is identified by value; the C# stack trace that `throw;` preserves is not modelled.
- NetCoreExecutor.ExecuteWithResult: `default(TResult)` for a value type is not `null`; the model represents every default result as `None`.
- The executable instance handed to interceptors: every `Before`, the call itself and every `After` receive the one instance resolved for the execution (src/M.Executables.Executors.NetCore/NetCoreExecutor.cs:61-77). The events of a trace record the input, the result and the exception, not the instance.
- Interceptor behaviour beyond throwing from `Before` (side effects, reading the executable or the input) is not modelled; the executable is a function of the instance and the input.
- Integer width: `OrderingIndex` is a C# `int`, but the selector only compares indices and never does arithmetic on them, so unbounded integers are used.
- `NetCoreExecutors` forwards to the two executors and is not part of this model; neither are `SimpleExecutor`, `SimpleInjectorExecutor` with its scope classes, or the service-registration extensions, which scan assemblies by reflection.
