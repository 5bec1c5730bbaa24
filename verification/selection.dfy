/** The discard rules that choose which interceptors run, shared by the
    synchronous and the asynchronous selector: the LINQ helpers each selector
    uses, and `SelectionRules`, the rules a selector's result must obey,
    stated without reference to how it is computed. */
module Selection {
  import opened Wrappers
  import opened Sorting
  import opened Interception

  function Ordering(x: Interceptor): int
  {
    x.ordering
  }

  /** The positions of the discarders in `xs`, ascending: a reference
      against which `Discarders` is checked. */
  function DiscarderPositions(xs: seq<Interceptor>): (ps: seq<nat>)
    ensures forall k :: 0 <= k < |ps| ==> ps[k] < |xs| && xs[ps[k]].discardOthers
    ensures forall k, l :: 0 <= k < l < |ps| ==> ps[k] < ps[l]
    ensures forall j :: 0 <= j < |xs| && xs[j].discardOthers ==> j in ps
  {
    if |xs| == 0 then
      []
    else
      var n := |xs| - 1;
      var init := DiscarderPositions(xs[..n]);
      assert forall j :: 0 <= j < n ==> xs[..n][j] == xs[j];
      init + (if xs[n].discardOthers then [n] else [])
  }

  /** `Where(x => x is IDiscardOtherInterceptors)`: the discarders, in
      registration order, each as often as it is registered. */
  function Discarders(xs: seq<Interceptor>): (r: seq<Interceptor>)
    ensures forall x :: x in r <==> x in xs && x.discardOthers
  {
    if |xs| == 0 then
      []
    else
      var n := |xs| - 1;
      assert forall x :: x in xs <==> x in xs[..n] || x == xs[n];
      Discarders(xs[..n]) + (if xs[n].discardOthers then [xs[n]] else [])
  }

  /** `Discarders` keeps exactly the discarders' positions and keeps them in
      order: its `k`th element is the discarder at the `k`th position. */
  lemma {:induction false} DiscardersFollowPositions(xs: seq<Interceptor>)
    ensures |Discarders(xs)| == |DiscarderPositions(xs)|
    ensures forall k :: 0 <= k < |Discarders(xs)| ==> Discarders(xs)[k] == xs[DiscarderPositions(xs)[k]]
  {
    if |xs| > 0 {
      var n := |xs| - 1;
      var init, d, ps := xs[..n], Discarders(xs), DiscarderPositions(xs);
      DiscardersFollowPositions(init);
      assert d == Discarders(init) + (if xs[n].discardOthers then [xs[n]] else []);
      assert ps == DiscarderPositions(init) + (if xs[n].discardOthers then [n] else []);
      forall k | 0 <= k < |d| ensures d[k] == xs[ps[k]] {
        if k < |Discarders(init)| {
          assert d[k] == init[DiscarderPositions(init)[k]];
        }
      }
    }
  }

  /** Some interceptor of `xs` implements `IDiscardOtherInterceptors`. */
  predicate HasDiscarder(xs: seq<Interceptor>)
  {
    exists x :: x in xs && x.discardOthers
  }

  /** Some interceptor of `xs` implements `IDiscardNonGenericInterceptors`. */
  predicate HasDiscardNonGeneric(xs: seq<Interceptor>)
  {
    exists x :: x in xs && x.discardNonGeneric
  }

  /** The discarder that wins on one side: the first, in registration order,
      of the discarders with the smallest ordering index. */
  function Winner(xs: seq<Interceptor>): (w: Interceptor)
    requires HasDiscarder(xs)
    ensures w in xs && w.discardOthers
    ensures forall x :: x in xs && x.discardOthers ==> w.ordering <= x.ordering
    ensures exists p :: 0 <= p < |xs| && xs[p] == w &&
              forall j :: 0 <= j < p && xs[j].discardOthers ==> w.ordering < xs[j].ordering
  {
    var d := Discarders(xs);
    DiscardersOfHasDiscarder(xs);
    var i := ArgMin(d, Ordering);
    FirstMinimalDiscarder(xs, i);
    DiscardersFollowPositions(xs);
    WinnerComesFirst(xs, d, DiscarderPositions(xs), i);
    d[i]
  }

  /** The first of the smallest-index discarders is one of the discarders of
      `xs`, and no other discarder has a smaller index. */
  lemma FirstMinimalDiscarder(xs: seq<Interceptor>, i: nat)
    requires FirstMinimum(Discarders(xs), Ordering, i)
    ensures var w := Discarders(xs)[i];
            && w in xs && w.discardOthers
            && forall x :: x in xs && x.discardOthers ==> w.ordering <= x.ordering
  {
    var d := Discarders(xs);
    forall x | x in xs && x.discardOthers ensures d[i].ordering <= x.ordering {
      var k :| 0 <= k < |d| && d[k] == x;
      assert Ordering(d[i]) <= Ordering(d[k]);
    }
  }

  /** The first of the smallest in a filtered sequence `d` of `xs`, whose
      elements sit at the ascending positions `ps`, is preceded in `xs` only
      by kept elements with a larger ordering index. */
  lemma WinnerComesFirst(xs: seq<Interceptor>, d: seq<Interceptor>, ps: seq<nat>, i: nat)
    requires |d| == |ps|
    requires forall k :: 0 <= k < |ps| ==> ps[k] < |xs| && d[k] == xs[ps[k]]
    requires forall k, l :: 0 <= k < l < |ps| ==> ps[k] < ps[l]
    requires forall j :: 0 <= j < |xs| && xs[j].discardOthers ==> j in ps
    requires FirstMinimum(d, Ordering, i)
    ensures forall j :: 0 <= j < ps[i] && xs[j].discardOthers ==> d[i].ordering < xs[j].ordering
  {
    forall j | 0 <= j < ps[i] && xs[j].discardOthers ensures d[i].ordering < xs[j].ordering {
      var m :| 0 <= m < |ps| && ps[m] == j;
      assert Ordering(d[i]) < Ordering(d[m]);
    }
  }

  lemma DiscardersOfHasDiscarder(xs: seq<Interceptor>)
    ensures HasDiscarder(xs) <==> |Discarders(xs)| > 0
  {
    if HasDiscarder(xs) {
      var x :| x in xs && x.discardOthers;
      assert x in Discarders(xs);
    }
  }

  /** `Where(discarder).OrderBy(OrderingIndex).FirstOrDefault()`. */
  function FirstDiscarder(xs: seq<Interceptor>): (r: Option<Interceptor>)
    ensures r.None? <==> !HasDiscarder(xs)
    ensures r.Some? ==> HasDiscarder(xs) && r.value == Winner(xs)
    ensures r.Some? ==> r.value in xs && r.value.discardOthers
    ensures r.Some? ==> forall x :: x in xs && x.discardOthers ==> r.value.ordering <= x.ordering
  {
    var d := Discarders(xs);
    var sorted := SortBy(d, Ordering);
    if |d| == 0 then
      assert |sorted| == |multiset(d)| == 0;
      None
    else
      SortHeadIsFirstMinimum(d, Ordering);
      forall x | x in xs && x.discardOthers ensures sorted[0].ordering <= x.ordering {
        var k :| 0 <= k < |d| && d[k] == x;
      }
      Some(sorted[0])
  }

  /** The rules of `GetInterceptors`: a discarder on either side wins alone
      (specific over general on a tie or when it also discards non-generic
      interceptors); without discarders, a specific interceptor that discards
      non-generic ones leaves the specifics alone; otherwise everything runs,
      merged; and nothing registered gives the empty chain. */
  ghost predicate SelectionRules(general: seq<Interceptor>, specific: seq<Interceptor>, r: Interceptors)
  {
    && (r.EmptyInterceptors? <==> |general| == 0 && |specific| == 0)
    && var chain := Chain(r);
       if HasDiscarder(specific) && HasDiscarder(general) then
         var s, g := Winner(specific), Winner(general);
         if s.ordering <= g.ordering || s.discardNonGeneric then
           chain == [Member(false, 0, s)]
         else
           chain == [Member(true, 0, g)]
       else if HasDiscarder(specific) then
         chain == [Member(false, 0, Winner(specific))]
       else if HasDiscarder(general) then
         chain == [Member(true, 0, Winner(general))]
       else if HasDiscardNonGeneric(specific) then
         MergedChain(chain, [], specific)
       else
         MergedChain(chain, general, specific)
  }

  /** The rules leave no freedom: every selector that obeys them picks the
      same chain. */
  lemma SelectionRulesAreDeterministic(general: seq<Interceptor>, specific: seq<Interceptor>, r1: Interceptors, r2: Interceptors)
    requires SelectionRules(general, specific, r1) && SelectionRules(general, specific, r2)
    ensures Chain(r1) == Chain(r2)
  {
    if !HasDiscarder(specific) && !HasDiscarder(general) {
      if HasDiscardNonGeneric(specific) {
        MergedChainIsUnique(Chain(r1), Chain(r2), [], specific);
      } else {
        MergedChainIsUnique(Chain(r1), Chain(r2), general, specific);
      }
    }
  }

  /** A chain built from one interceptor is that interceptor at index 0. */
  lemma LoneInterceptorChain(x: Interceptor, isGeneral: bool)
    ensures isGeneral ==> NewInterceptors([x], []).members == [Member(true, 0, x)]
    ensures !isGeneral ==> NewInterceptors([], [x]).members == [Member(false, 0, x)]
  {
    var members := if isGeneral then NewInterceptors([x], []).members else NewInterceptors([], [x]).members;
    var m := Member(isGeneral, 0, x);
    if isGeneral {
      assert Registered([], false) + Registered([x], true) == [m];
    } else {
      assert Registered([x], false) + Registered([], true) == [m];
    }
    assert multiset(members) == multiset{m};
    assert |members| == 1;
    assert members[0] in multiset(members);
  }

  /** The branches of the selector where the specific discarder runs alone. */
  lemma SpecificDiscarderWins(general: seq<Interceptor>, specific: seq<Interceptor>)
    requires HasDiscarder(specific)
    requires HasDiscarder(general) ==>
               Winner(specific).ordering <= Winner(general).ordering || Winner(specific).discardNonGeneric
    ensures SelectionRules(general, specific, NewInterceptors([], [Winner(specific)]))
  {
    LoneInterceptorChain(Winner(specific), false);
  }

  /** The branches of the selector where the general discarder runs alone. */
  lemma GeneralDiscarderWins(general: seq<Interceptor>, specific: seq<Interceptor>)
    requires HasDiscarder(general)
    requires HasDiscarder(specific) ==>
               !(Winner(specific).ordering <= Winner(general).ordering || Winner(specific).discardNonGeneric)
    ensures SelectionRules(general, specific, NewInterceptors([Winner(general)], []))
  {
    LoneInterceptorChain(Winner(general), true);
  }

  /** The branches of the selector without any discarder. */
  lemma NoDiscarderRules(general: seq<Interceptor>, specific: seq<Interceptor>)
    requires !HasDiscarder(general) && !HasDiscarder(specific)
    ensures |general| == 0 && |specific| == 0 ==> SelectionRules(general, specific, EmptyInterceptors)
    ensures HasDiscardNonGeneric(specific) ==> SelectionRules(general, specific, NewInterceptors([], specific))
    ensures !HasDiscardNonGeneric(specific) && (|general| > 0 || |specific| > 0) ==>
              SelectionRules(general, specific, NewInterceptors(general, specific))
  {
    if |general| == 0 && |specific| == 0 {
      assert Registered(specific, false) + Registered(general, true) == [];
    }
  }
}
