/**
 `SelectionLogicCallable.call`: the targeting predicates of one group are evaluated
 against the request context the callable was built with, and the group is TRUE
 exactly when every predicate result is TRUE. Any FALSE or INDETERMINATE result
 collapses the group to FALSE; INDETERMINATE is never returned.
 */
module SelectionLogicCallable {
  import opened AdvertisingModel

  /** `allMatch(result -> result.isTrue())` over evaluated results, left to right. */
  function AllMatchTrue(results: seq<TargetingPredicateResult>): (b: bool)
    ensures b <==> forall i :: 0 <= i < |results| ==> results[i].IsTrue()
  {
    if results == [] then true
    else results[0].IsTrue() && AllMatchTrue(results[1..])
  }

  /** The predicate results of a group, each evaluated against the one request context. */
  function EvaluateAll<P>(requestContext: RequestContext, targetingPredicates: seq<P>,
                          evaluate: (P, RequestContext) -> TargetingPredicateResult): (results: seq<TargetingPredicateResult>)
    ensures |results| == |targetingPredicates|
    ensures forall i :: 0 <= i < |results| ==> results[i] == evaluate(targetingPredicates[i], requestContext)
  {
    if targetingPredicates == [] then []
    else [evaluate(targetingPredicates[0], requestContext)] + EvaluateAll(requestContext, targetingPredicates[1..], evaluate)
  }

  /** The result of `call()` for a group with the given predicates. */
  function Call<P>(requestContext: RequestContext, targetingPredicates: seq<P>,
                   evaluate: (P, RequestContext) -> TargetingPredicateResult): (r: TargetingPredicateResult)
    ensures r != INDETERMINATE
    ensures r == TRUE <==>
              forall i :: 0 <= i < |targetingPredicates| ==> evaluate(targetingPredicates[i], requestContext).IsTrue()
    ensures |targetingPredicates| == 0 ==> r == TRUE
    ensures (exists i :: 0 <= i < |targetingPredicates| && !evaluate(targetingPredicates[i], requestContext).IsTrue())
              ==> r == FALSE
  {
    if AllMatchTrue(EvaluateAll(requestContext, targetingPredicates, evaluate)) then TRUE else FALSE
  }

  /** `call()` reads the predicate evaluations at its own request context and nothing else. */
  lemma CallDependsOnlyOnItsContext<P>(requestContext: RequestContext, targetingPredicates: seq<P>,
                                       evaluate: (P, RequestContext) -> TargetingPredicateResult,
                                       evaluate': (P, RequestContext) -> TargetingPredicateResult)
    requires forall p :: p in targetingPredicates ==> evaluate(p, requestContext) == evaluate'(p, requestContext)
    ensures Call(requestContext, targetingPredicates, evaluate) == Call(requestContext, targetingPredicates, evaluate')
  {
  }

  /** The combination is a pure conjunction: reordering the predicates does not change the result. */
  lemma CallIgnoresPredicateOrder<P>(requestContext: RequestContext, targetingPredicates: seq<P>, reordered: seq<P>,
                                     evaluate: (P, RequestContext) -> TargetingPredicateResult)
    requires multiset(targetingPredicates) == multiset(reordered)
    ensures Call(requestContext, targetingPredicates, evaluate) == Call(requestContext, reordered, evaluate)
  {
    AllTrueByMembership(requestContext, targetingPredicates, evaluate);
    AllTrueByMembership(requestContext, reordered, evaluate);
    forall p ensures p in targetingPredicates <==> p in reordered {
      assert p in targetingPredicates <==> p in multiset(targetingPredicates);
      assert p in reordered <==> p in multiset(reordered);
    }
  }

  /** Splitting a group's predicates in two: the group is TRUE iff both halves are. */
  lemma CallOfConcatenation<P>(requestContext: RequestContext, first: seq<P>, second: seq<P>,
                               evaluate: (P, RequestContext) -> TargetingPredicateResult)
    ensures Call(requestContext, first + second, evaluate) == TRUE <==>
              Call(requestContext, first, evaluate) == TRUE && Call(requestContext, second, evaluate) == TRUE
  {
    var both := first + second;
    if Call(requestContext, first, evaluate) == TRUE && Call(requestContext, second, evaluate) == TRUE {
      forall i | 0 <= i < |both| ensures evaluate(both[i], requestContext).IsTrue() {
        if i >= |first| {
          assert both[i] == second[i - |first|];
        }
      }
    }
    if Call(requestContext, both, evaluate) == TRUE {
      forall i | 0 <= i < |first| ensures evaluate(first[i], requestContext).IsTrue() {
        assert first[i] == both[i];
      }
      forall i | 0 <= i < |second| ensures evaluate(second[i], requestContext).IsTrue() {
        assert second[i] == both[|first| + i];
      }
    }
  }

  /** "Every result is TRUE" read over indices agrees with it read over the predicates present. */
  lemma AllTrueByMembership<P>(requestContext: RequestContext, targetingPredicates: seq<P>,
                               evaluate: (P, RequestContext) -> TargetingPredicateResult)
    ensures (forall i :: 0 <= i < |targetingPredicates| ==> evaluate(targetingPredicates[i], requestContext).IsTrue())
            <==> (forall p :: p in targetingPredicates ==> evaluate(p, requestContext).IsTrue())
  {
  }
}
