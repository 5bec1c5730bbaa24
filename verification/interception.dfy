/** Interceptors, the resolved chain an execution runs, and the two walks over
    it: `Before` front to back and `After` back to front. This is the private
    `Interceptors` class of the executor (and its async twin
    `AsyncInterceptors`, whose loops are the same), together with
    `EmptyInterceptors`, which is the chain with no members. */
module Interception {
  import opened Wrappers
  import opened Sorting

  /** What can escape an execution: the container could not resolve the
      executable, or some code raised an exception (identified by `id`, so
      that "the same exception" can be stated). */
  datatype Exception = ResolutionFailed | Raised(id: nat)

  /** A registered interceptor: its identity, its `OrderingIndex`, whether it
      implements `IDiscardOtherInterceptors` and
      `IDiscardNonGenericInterceptors`, and the exception its `Before` throws,
      if any. Whether it is general or specific is given by the list it was
      registered in. */
  datatype Interceptor = Interceptor(
    id: nat,
    ordering: int,
    discardOthers: bool,
    discardNonGeneric: bool,
    beforeFault: Option<Exception>)

  /** One entry of the chain: the `(isGeneral, ordering, index)` tuple of the
      source together with the interceptor it points at. `index` is the
      position in the general or specific array handed to the chain. */
  datatype Member = Member(isGeneral: bool, index: nat, interceptor: Interceptor)

  function Key(m: Member): int
  {
    m.interceptor.ordering
  }

  /** The tuples built from one array, in array order. */
  function Registered(xs: seq<Interceptor>, isGeneral: bool): seq<Member>
  {
    seq(|xs|, i requires 0 <= i < |xs| => Member(isGeneral, i, xs[i]))
  }

  /** The order the chain must follow: ascending `OrderingIndex`; on equal
      indices specific before general; within one array, array order. */
  predicate Precedes(a: Member, b: Member)
  {
    || Key(a) < Key(b)
    || (Key(a) == Key(b) && !a.isGeneral && b.isGeneral)
    || (Key(a) == Key(b) && a.isGeneral == b.isGeneral && a.index < b.index)
  }

  ghost predicate StrictlyOrdered(chain: seq<Member>)
  {
    forall i, j :: 0 <= i < j < |chain| ==> Precedes(chain[i], chain[j])
  }

  /** `chain` holds every general and every specific interceptor exactly once
      and in the order `Precedes` prescribes. */
  ghost predicate MergedChain(chain: seq<Member>, general: seq<Interceptor>, specific: seq<Interceptor>)
  {
    && multiset(chain) == multiset(Registered(specific, false) + Registered(general, true))
    && StrictlyOrdered(chain)
  }

  /** The chain an execution runs: `EmptyInterceptors` has no members; the
      `Interceptors` class holds its sorted tuple array. */
  datatype Interceptors = EmptyInterceptors | Interceptors(members: seq<Member>)

  function Chain(c: Interceptors): seq<Member>
  {
    match c
    case EmptyInterceptors => []
    case Interceptors(members) => members
  }

  /** The `Interceptors` constructor: specific tuples, then general tuples,
      stably sorted by ordering index. */
  function NewInterceptors(general: seq<Interceptor>, specific: seq<Interceptor>): (r: Interceptors)
    ensures r.Interceptors?
    ensures MergedChain(r.members, general, specific)
  {
    var tuples := Registered(specific, false) + Registered(general, true);
    var members := SortBy(tuples, Key);
    MergedChainOfSort(general, specific);
    Interceptors(members)
  }

  /** The position of a tuple in the concatenated array: specifics first. */
  function Position(n: nat): Member -> int
  {
    (m: Member) => if m.isGeneral then n + m.index else m.index
  }

  lemma TuplesAreRanked(general: seq<Interceptor>, specific: seq<Interceptor>)
    ensures Ranked(Registered(specific, false) + Registered(general, true), Position(|specific|))
  {
    var tuples := Registered(specific, false) + Registered(general, true);
    forall p | 0 <= p < |tuples| ensures Position(|specific|)(tuples[p]) == p {
      if p < |specific| {
        assert tuples[p] == Member(false, p, specific[p]);
      } else {
        assert tuples[p] == Member(true, p - |specific|, general[p - |specific|]);
      }
    }
  }

  lemma SpecificIndexBound(general: seq<Interceptor>, specific: seq<Interceptor>, m: Member)
    requires m in multiset(Registered(specific, false) + Registered(general, true))
    ensures !m.isGeneral ==> m.index < |specific|
  {
    var tuples := Registered(specific, false) + Registered(general, true);
    var q :| 0 <= q < |tuples| && tuples[q] == m;
    if q >= |specific| {
      assert tuples[q] == Member(true, q - |specific|, general[q - |specific|]);
    }
  }

  lemma MergedChainOfSort(general: seq<Interceptor>, specific: seq<Interceptor>)
    ensures MergedChain(SortBy(Registered(specific, false) + Registered(general, true), Key), general, specific)
  {
    var tuples := Registered(specific, false) + Registered(general, true);
    var rank := Position(|specific|);
    TuplesAreRanked(general, specific);
    SortByIsStable(tuples, Key, rank);
    var members := SortBy(tuples, Key);
    forall i, j | 0 <= i < j < |members| ensures Precedes(members[i], members[j]) {
      assert members[j] in multiset(members);
      SpecificIndexBound(general, specific, members[j]);
      assert Key(members[i]) < Key(members[j]) || (Key(members[i]) == Key(members[j]) && rank(members[i]) < rank(members[j]));
    }
  }

  /** `MergedChain` pins the chain down completely: two chains that both meet
      it for the same registrations are equal. */
  lemma {:induction false} MergedChainIsUnique(a: seq<Member>, b: seq<Member>, general: seq<Interceptor>, specific: seq<Interceptor>)
    requires MergedChain(a, general, specific) && MergedChain(b, general, specific)
    ensures a == b
  {
    StrictlyOrderedIsUnique(a, b);
  }

  /** No member precedes itself, and of two members at most one precedes the
      other. */
  lemma PrecedesIsAsymmetric(x: Member, y: Member)
    ensures Precedes(x, y) ==> !Precedes(y, x)
  {
  }

  /** Two strictly ordered arrangements of the same members start with the
      same member: each head occurs in the other sequence, and it cannot
      follow the other's head there. */
  lemma HeadsAgree(a: seq<Member>, b: seq<Member>)
    requires multiset(a) == multiset(b) && |a| > 0
    requires StrictlyOrdered(a) && StrictlyOrdered(b)
    ensures |b| > 0 && a[0] == b[0]
  {
    assert a[0] in multiset(b) && b[0] in multiset(a);
    var i :| 0 <= i < |b| && b[i] == a[0];
    var j :| 0 <= j < |a| && a[j] == b[0];
    if i > 0 {
      assert Precedes(a[j], a[0]);
      PrecedesIsAsymmetric(a[j], a[0]);
      assert false;
    }
  }

  lemma {:induction false} StrictlyOrderedIsUnique(a: seq<Member>, b: seq<Member>)
    requires multiset(a) == multiset(b)
    requires StrictlyOrdered(a) && StrictlyOrdered(b)
    ensures a == b
    decreases |a|
  {
    assert |a| == |multiset(a)| == |multiset(b)| == |b|;
    if |a| > 0 {
      HeadsAgree(a, b);
      assert a == [a[0]] + a[1..] && b == [b[0]] + b[1..];
      assert multiset(a) == multiset{a[0]} + multiset(a[1..]);
      assert multiset(b) == multiset{b[0]} + multiset(b[1..]);
      assert multiset(a[1..]) == multiset(a) - multiset{a[0]};
      assert multiset(b[1..]) == multiset(b) - multiset{b[0]};
      StrictlyOrderedIsUnique(a[1..], b[1..]);
    }
  }

  /** What the executor observes of one execution, in order. */
  datatype Event<I, R> =
    | BeforeCall(member: Member, input: Option<I>)
    | Executed(input: Option<I>)
    | AfterCall(member: Member, input: Option<I>, result: Option<R>, exception: Option<Exception>)

  /** No member's `Before` throws. */
  predicate BeforeCompletes(chain: seq<Member>)
  {
    forall k :: 0 <= k < |chain| ==> chain[k].interceptor.beforeFault.None?
  }

  /** The position of the first member whose `Before` throws. */
  function FirstFault(chain: seq<Member>): (f: nat)
    requires !BeforeCompletes(chain)
    ensures f < |chain| && chain[f].interceptor.beforeFault.Some?
    ensures forall k :: 0 <= k < f ==> chain[k].interceptor.beforeFault.None?
  {
    if chain[0].interceptor.beforeFault.Some? then 0 else 1 + FirstFault(chain[1..])
  }

  /** How `Before` ended: the members whose `Before` was called, in calling
      order, and the exception that stopped the loop, if any. */
  datatype BeforeRun = BeforeRun(called: seq<Member>, fault: Option<Exception>)

  /** `Before`: calls every member's `Before` front to back; an exception
      thrown by one of them leaves the loop and the rest are not called. */
  function BeforeEach(chain: seq<Member>): (r: BeforeRun)
    ensures BeforeCompletes(chain) ==> r.fault.None? && r.called == chain
    ensures !BeforeCompletes(chain) ==>
              var f := FirstFault(chain);
              r.fault == chain[f].interceptor.beforeFault && r.called == chain[..f + 1]
  {
    if |chain| == 0 then
      BeforeRun([], None)
    else if chain[0].interceptor.beforeFault.Some? then
      BeforeRun([chain[0]], chain[0].interceptor.beforeFault)
    else
      var rest := BeforeEach(chain[1..]);
      assert BeforeCompletes(chain) <==> BeforeCompletes(chain[1..]);
      assert !BeforeCompletes(chain) ==> chain[..FirstFault(chain) + 1] == [chain[0]] + chain[1..][..FirstFault(chain[1..]) + 1];
      BeforeRun([chain[0]] + rest.called, rest.fault)
  }

  /** The events of the `Before` calls on `called`, each with `input`. */
  function BeforeCalls<I, R>(called: seq<Member>, input: Option<I>): seq<Event<I, R>>
  {
    seq(|called|, k requires 0 <= k < |called| => BeforeCall(called[k], input))
  }

  /** `After`: calls every member's `After` back to front, each with the same
      input, result and exception. */
  function AfterEach<I, R>(chain: seq<Member>, input: Option<I>, result: Option<R>, exception: Option<Exception>): (r: seq<Event<I, R>>)
    ensures |r| == |chain|
    ensures forall k :: 0 <= k < |chain| ==> r[k] == AfterCall(chain[|chain| - 1 - k], input, result, exception)
  {
    if |chain| == 0 then
      []
    else
      var last := |chain| - 1;
      [AfterCall(chain[last], input, result, exception)] + AfterEach(chain[..last], input, result, exception)
  }

  /** The members an event sequence visits, in visiting order. */
  function Visited<I, R>(events: seq<Event<I, R>>): (r: seq<Member>)
  {
    if |events| == 0 then []
    else (if events[0].Executed? then [] else [events[0].member]) + Visited(events[1..])
  }

  function Reverse<T>(s: seq<T>): seq<T>
  {
    if |s| == 0 then [] else Reverse(s[1..]) + [s[0]]
  }

  lemma {:induction false} VisitedBeforeCalls<I, R>(chain: seq<Member>, events: seq<Event<I, R>>, input: Option<I>)
    requires |events| == |chain|
    requires forall k :: 0 <= k < |chain| ==> events[k] == BeforeCall(chain[k], input)
    ensures Visited(events) == chain
  {
    if |chain| > 0 {
      VisitedBeforeCalls(chain[1..], events[1..], input);
    }
  }

  lemma {:induction false} VisitedAfterCalls<I, R>(chain: seq<Member>, events: seq<Event<I, R>>, input: Option<I>, result: Option<R>, exception: Option<Exception>)
    requires |events| == |chain|
    requires forall k :: 0 <= k < |chain| ==> events[k] == AfterCall(chain[|chain| - 1 - k], input, result, exception)
    ensures Visited(events) == Reverse(chain)
  {
    if |chain| > 0 {
      var last := |chain| - 1;
      VisitedAfterCalls(chain[..last], events[1..], input, result, exception);
      ReverseOfSnoc(chain[..last], chain[last]);
      assert chain == chain[..last] + [chain[last]];
    }
  }

  lemma {:induction false} ReverseOfSnoc<T>(s: seq<T>, x: T)
    ensures Reverse(s + [x]) == [x] + Reverse(s)
  {
    if |s| > 0 {
      assert (s + [x])[1..] == s[1..] + [x];
      ReverseOfSnoc(s[1..], x);
    }
  }

  /** When every `Before` completes, `After` visits exactly the members
      `Before` called, in reverse order, each once. */
  lemma AfterReversesBefore<I, R>(chain: seq<Member>, input: Option<I>, result: Option<R>, exception: Option<Exception>)
    requires BeforeCompletes(chain)
    ensures Visited(BeforeCalls<I, R>(BeforeEach(chain).called, input)) == BeforeEach(chain).called
    ensures Visited(AfterEach(chain, input, result, exception)) == Reverse(BeforeEach(chain).called)
  {
    VisitedBeforeCalls(chain, BeforeCalls<I, R>(chain, input), input);
    VisitedAfterCalls(chain, AfterEach(chain, input, result, exception), input, result, exception);
  }
}
