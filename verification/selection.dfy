/**
 `AdvertisementSelectionLogic.selectAdvertisement`: fetch the marketplace's content,
 keep the content with at least one targeting group the evaluator finds TRUE, score
 each kept advertisement by the largest click-through rate over all of its groups
 (never below 0), put `score -> advertisement` into a sorted map that belongs to the
 instance and is never cleared, and return the advertisement at the map's greatest key.

 The instance's sorted map is threaded through explicitly: a selection takes the
 instance before the call and returns it after the call.
 */
module AdvertisementSelectionLogic {
  import opened AdvertisingModel

  /** What `TargetingEvaluator.evaluate` does for one group: it returns a result, or it throws
      (InterruptedException or ExecutionException, caught and logged by the caller). */
  datatype Evaluation = Evaluated(result: TargetingPredicateResult) | Thrown

  /** The targeting evaluator built for a request context, applied to one targeting group. */
  type Evaluator = (RequestContext, TargetingGroup) -> Evaluation

  /** The `highestClickThroughRate` sorted map: click-through rate to advertisement. */
  type Ranking = map<real, AdvertisementContent>

  /** An `AdvertisementSelectionLogic` instance: its two data sources and its ranking map. */
  datatype SelectionLogic = SelectionLogic(
    contentDao: string -> Option<seq<AdvertisementContent>>,
    targetingGroupDao: string -> seq<TargetingGroup>,
    highestClickThroughRate: Ranking)

  /** What a call returns, or the exception it throws. */
  datatype Outcome = Returned(advertisement: GeneratedAdvertisement) | Threw(fault: Fault)

  /** A call's outcome together with the instance as the call leaves it. */
  datatype Selection = Selection(outcome: Outcome, logic: SelectionLogic)

  /** The constructor: the ranking map starts empty. */
  function NewSelectionLogic(contentDao: string -> Option<seq<AdvertisementContent>>,
                             targetingGroupDao: string -> seq<TargetingGroup>): SelectionLogic
  {
    SelectionLogic(contentDao, targetingGroupDao, map[])
  }

  // ---------------------------------------------------------------------------
  // Filtering: `anyMatch` over an advertisement's targeting groups
  // ---------------------------------------------------------------------------

  /** How `anyMatch` over one advertisement's groups ends. */
  datatype GroupMatch = Matched | NoMatch | Faulted

  /**
   `anyMatch` over the groups in list order: it stops at the first group that evaluates
   to TRUE; a group whose evaluation throws leaves the result null, and the following
   `isTrue()` faults.
   */
  function AnyGroupTrue(evaluate: Evaluator, requestContext: RequestContext, groups: seq<TargetingGroup>): GroupMatch
  {
    if groups == [] then NoMatch
    else match evaluate(requestContext, groups[0])
      case Thrown => Faulted
      case Evaluated(result) =>
        if result.IsTrue() then Matched else AnyGroupTrue(evaluate, requestContext, groups[1..])
  }

  /** The group evaluated without throwing and was not TRUE, so `anyMatch` moves on. */
  predicate IsQuiet(evaluation: Evaluation)
  {
    evaluation.Evaluated? && !evaluation.result.IsTrue()
  }

  /** Every group before index `i` is quiet. */
  predicate NoneTrueBefore(evaluate: Evaluator, requestContext: RequestContext, groups: seq<TargetingGroup>, i: nat)
    requires i <= |groups|
  {
    forall j :: 0 <= j < i ==> IsQuiet(evaluate(requestContext, groups[j]))
  }

  /** `anyMatch` stops at some group evaluating to `target`, every earlier group being quiet. */
  predicate StopsWith(evaluate: Evaluator, requestContext: RequestContext, groups: seq<TargetingGroup>, target: Evaluation)
  {
    exists i :: 0 <= i < |groups| && NoneTrueBefore(evaluate, requestContext, groups, i)
                && evaluate(requestContext, groups[i]) == target
  }

  /** Dropping the first group shifts `NoneTrueBefore` down by one. */
  lemma NoneTrueBeforeShift(evaluate: Evaluator, requestContext: RequestContext, groups: seq<TargetingGroup>, i: nat)
    requires i < |groups|
    ensures NoneTrueBefore(evaluate, requestContext, groups, i + 1) <==>
              IsQuiet(evaluate(requestContext, groups[0])) && NoneTrueBefore(evaluate, requestContext, groups[1..], i)
  {
    assert forall j :: 0 <= j < i ==> groups[1..][j] == groups[j + 1];
  }

  /** `anyMatch` stops at a non-quiet `target` iff the first group is it, or the first is quiet and the rest stop at it. */
  lemma StopsWithShift(evaluate: Evaluator, requestContext: RequestContext, groups: seq<TargetingGroup>, target: Evaluation)
    requires groups != [] && !IsQuiet(target)
    ensures StopsWith(evaluate, requestContext, groups, target) <==>
              || evaluate(requestContext, groups[0]) == target
              || (IsQuiet(evaluate(requestContext, groups[0])) && StopsWith(evaluate, requestContext, groups[1..], target))
  {
  }

  /**
   The three ways `anyMatch` can end: TRUE iff it stops at a group evaluating to TRUE,
   a fault iff it stops at a group whose evaluation throws, false iff every group is quiet.
   */
  lemma {:induction false} AnyGroupTrueCharacterised(evaluate: Evaluator, requestContext: RequestContext,
                                                     groups: seq<TargetingGroup>)
    ensures AnyGroupTrue(evaluate, requestContext, groups) == Matched <==>
              StopsWith(evaluate, requestContext, groups, Evaluated(TRUE))
    ensures AnyGroupTrue(evaluate, requestContext, groups) == Faulted <==>
              StopsWith(evaluate, requestContext, groups, Thrown)
    ensures AnyGroupTrue(evaluate, requestContext, groups) == NoMatch <==>
              NoneTrueBefore(evaluate, requestContext, groups, |groups|)
  {
    if groups != [] {
      AnyGroupTrueCharacterised(evaluate, requestContext, groups[1..]);
      StopsWithShift(evaluate, requestContext, groups, Evaluated(TRUE));
      StopsWithShift(evaluate, requestContext, groups, Thrown);
      NoneTrueBeforeShift(evaluate, requestContext, groups, |groups| - 1);
    }
  }

  /** A group evaluated by the request's evaluator is TRUE. */
  predicate HasTrueGroup(evaluate: Evaluator, requestContext: RequestContext, groups: seq<TargetingGroup>)
  {
    exists i :: 0 <= i < |groups| && evaluate(requestContext, groups[i]) == Evaluated(TRUE)
  }

  /** When no evaluation throws, `anyMatch` keeps exactly the content with some TRUE group. */
  lemma {:induction false} MatchedIffSomeGroupTrue(evaluate: Evaluator, requestContext: RequestContext,
                                                   groups: seq<TargetingGroup>)
    requires forall i :: 0 <= i < |groups| ==> evaluate(requestContext, groups[i]).Evaluated?
    ensures AnyGroupTrue(evaluate, requestContext, groups) == Matched <==> HasTrueGroup(evaluate, requestContext, groups)
  {
    if groups != [] {
      MatchedIffSomeGroupTrue(evaluate, requestContext, groups[1..]);
      if HasTrueGroup(evaluate, requestContext, groups[1..]) {
        var i :| 0 <= i < |groups[1..]| && evaluate(requestContext, groups[1..][i]) == Evaluated(TRUE);
        assert groups[i + 1] == groups[1..][i];
      }
      if HasTrueGroup(evaluate, requestContext, groups) && evaluate(requestContext, groups[0]) != Evaluated(TRUE) {
        var i :| 0 <= i < |groups| && evaluate(requestContext, groups[i]) == Evaluated(TRUE);
        assert groups[1..][i - 1] == groups[i];
      }
    }
  }

  /** The filter's condition for one advertisement: `anyMatch` over its groups ends TRUE. */
  predicate IsEligible(evaluate: Evaluator, requestContext: RequestContext,
                       targetingGroupDao: string -> seq<TargetingGroup>, ad: AdvertisementContent)
  {
    AnyGroupTrue(evaluate, requestContext, targetingGroupDao(ad.contentId)) == Matched
  }

  /** The filter's condition for one advertisement throws. */
  predicate FaultsOn(evaluate: Evaluator, requestContext: RequestContext,
                     targetingGroupDao: string -> seq<TargetingGroup>, ad: AdvertisementContent)
  {
    AnyGroupTrue(evaluate, requestContext, targetingGroupDao(ad.contentId)) == Faulted
  }

  /** `xs` is `ys` with some elements dropped and the rest in their original order. */
  predicate IsSubsequence<T(==)>(xs: seq<T>, ys: seq<T>)
    decreases |ys|
  {
    if xs == [] then true
    else if ys == [] then false
    else (xs[0] == ys[0] && IsSubsequence(xs[1..], ys[1..])) || IsSubsequence(xs, ys[1..])
  }

  /**
   `contents.stream().filter(...).collect(toList())`: the eligible advertisements in list
   order, or the exception of the first advertisement whose targeting evaluation throws.
   */
  function FilterEligible(evaluate: Evaluator, requestContext: RequestContext,
                          targetingGroupDao: string -> seq<TargetingGroup>,
                          contents: seq<AdvertisementContent>): (r: Result<seq<AdvertisementContent>>)
    ensures r.Err? <==> exists i :: 0 <= i < |contents| && FaultsOn(evaluate, requestContext, targetingGroupDao, contents[i])
    ensures r.Err? ==> r.fault == NullPointerException
  {
    if contents == [] then Ok([])
    else
      var head := contents[0];
      match AnyGroupTrue(evaluate, requestContext, targetingGroupDao(head.contentId))
      case Faulted => Err(NullPointerException)
      case Matched =>
        (match FilterEligible(evaluate, requestContext, targetingGroupDao, contents[1..])
         case Ok(rest) => Ok([head] + rest)
         case Err(fault) => Err(fault))
      case NoMatch => FilterEligible(evaluate, requestContext, targetingGroupDao, contents[1..])
  }

  /**
   When no targeting evaluation throws, the filter keeps the eligible advertisements in their original
   order: the result is a subsequence of the contents that holds each eligible
   advertisement as many times as the contents do, and nothing else.
   */
  lemma {:induction false} FilterKeepsEligibleInOrder(evaluate: Evaluator, requestContext: RequestContext,
                                                      targetingGroupDao: string -> seq<TargetingGroup>,
                                                      contents: seq<AdvertisementContent>)
    requires FilterEligible(evaluate, requestContext, targetingGroupDao, contents).Ok?
    ensures var kept := FilterEligible(evaluate, requestContext, targetingGroupDao, contents).value;
            && IsSubsequence(kept, contents)
            && (forall ad :: multiset(kept)[ad] ==
                  if IsEligible(evaluate, requestContext, targetingGroupDao, ad) then multiset(contents)[ad] else 0)
            && (forall ad :: ad in kept <==> ad in contents && IsEligible(evaluate, requestContext, targetingGroupDao, ad))
  {
    if contents != [] {
      var head := contents[0];
      var tail := contents[1..];
      assert contents == [head] + tail;
      assert multiset(contents) == multiset{head} + multiset(tail);
      FilterKeepsEligibleInOrder(evaluate, requestContext, targetingGroupDao, tail);
      var kept := FilterEligible(evaluate, requestContext, targetingGroupDao, contents).value;
      var rest := FilterEligible(evaluate, requestContext, targetingGroupDao, tail).value;
      if IsEligible(evaluate, requestContext, targetingGroupDao, head) {
        assert kept == [head] + rest;
        assert kept[1..] == rest;
        assert multiset(kept) == multiset{head} + multiset(rest);
      } else {
        assert kept == rest;
      }
    }
  }

  // ---------------------------------------------------------------------------
  // Scoring: the largest click-through rate over all of an advertisement's groups
  // ---------------------------------------------------------------------------

  /** The inner loop: keep the running rate, replacing it by any strictly larger one. */
  function HighestRateFrom(groups: seq<TargetingGroup>, current: real): real
  {
    if groups == [] then current
    else
      var next := if groups[0].clickThroughRate > current then groups[0].clickThroughRate else current;
      HighestRateFrom(groups[1..], next)
  }

  /** An advertisement's score, with the running rate starting at 0. */
  function Score(groups: seq<TargetingGroup>): real
  {
    HighestRateFrom(groups, 0.0)
  }

  /** The score the ranking loop computes for `ad` from its (re-fetched) targeting groups. */
  function ScoreOf(targetingGroupDao: string -> seq<TargetingGroup>, ad: AdvertisementContent): real
  {
    Score(targetingGroupDao(ad.contentId))
  }

  /** `s` is the largest click-through rate over all the groups, floored at 0. */
  predicate IsFlooredMaximum(groups: seq<TargetingGroup>, s: real)
  {
    && s >= 0.0
    && (forall i :: 0 <= i < |groups| ==> groups[i].clickThroughRate <= s)
    && (s == 0.0 || exists i :: 0 <= i < |groups| && groups[i].clickThroughRate == s)
  }

  lemma {:induction false} HighestRateFromBounds(groups: seq<TargetingGroup>, current: real)
    ensures HighestRateFrom(groups, current) >= current
    ensures forall i :: 0 <= i < |groups| ==> groups[i].clickThroughRate <= HighestRateFrom(groups, current)
    ensures HighestRateFrom(groups, current) == current
            || exists i :: 0 <= i < |groups| && groups[i].clickThroughRate == HighestRateFrom(groups, current)
  {
    if groups != [] {
      var next := if groups[0].clickThroughRate > current then groups[0].clickThroughRate else current;
      HighestRateFromBounds(groups[1..], next);
      var r := HighestRateFrom(groups, current);
      assert r == HighestRateFrom(groups[1..], next);
      forall i | 0 < i < |groups| ensures groups[i].clickThroughRate <= r {
        assert groups[i] == groups[1..][i - 1];
      }
      if r != next {
        var i :| 0 <= i < |groups[1..]| && groups[1..][i].clickThroughRate == r;
        assert groups[i + 1].clickThroughRate == r;
      }
    }
  }

  /** The score is exactly the floored maximum: it satisfies it, and nothing else does. */
  lemma ScoreIsFlooredMaximum(groups: seq<TargetingGroup>, s: real)
    ensures IsFlooredMaximum(groups, Score(groups))
    ensures IsFlooredMaximum(groups, s) <==> s == Score(groups)
  {
    HighestRateFromBounds(groups, 0.0);
    if IsFlooredMaximum(groups, s) {
      var t := Score(groups);
      if t != 0.0 {
        var i :| 0 <= i < |groups| && groups[i].clickThroughRate == t;
      }
      if s != 0.0 {
        var i :| 0 <= i < |groups| && groups[i].clickThroughRate == s;
      }
    }
  }

  // ---------------------------------------------------------------------------
  // `lastKey()`: the greatest key of the sorted map
  // ---------------------------------------------------------------------------

  /** A non-empty finite set of reals has a greatest element. */
  lemma GreatestExists(keys: set<real>)
    requires keys != {}
    ensures exists k :: k in keys && forall k' :: k' in keys ==> k' <= k
  {
    assert exists y :: y in keys by {
      if forall y :: y !in keys {
        assert false;
      }
    }
    var x :| x in keys;
    GreatestAtOrAbove(keys, x);
  }

  /** Climbing from any element of a finite set of reals reaches a greatest one. */
  lemma {:induction false} GreatestAtOrAbove(keys: set<real>, x: real)
    requires x in keys
    ensures exists k :: k in keys && forall k' :: k' in keys ==> k' <= k
    decreases set z | z in keys && z > x
  {
    if !forall k' :: k' in keys ==> k' <= x {
      var y :| y in keys && y > x;
      var above, aboveY := set z | z in keys && z > x, set z | z in keys && z > y;
      assert aboveY <= above && y in above && y !in aboveY;
      GreatestAtOrAbove(keys, y);
    }
  }

  /** `SortedMap.lastKey()` on a non-empty map: its greatest key. */
  function LastKey(ranking: Ranking): (k: real)
    requires ranking != map[]
    ensures k in ranking
    ensures forall k' :: k' in ranking ==> k' <= k
  {
    assert ranking.Keys != {} by {
      if ranking.Keys == {} {
        assert false;
      }
    }
    GreatestExists(ranking.Keys);
    var k :| k in ranking && forall k' :: k' in ranking ==> k' <= k;
    k
  }

  // ---------------------------------------------------------------------------
  // Ranking: `put(score, ad)` for each eligible advertisement, in list order
  // ---------------------------------------------------------------------------

  /** The ranking map after putting every advertisement of `ads`, in list order, into `ranking`. */
  function Rank(ranking: Ranking, targetingGroupDao: string -> seq<TargetingGroup>,
                ads: seq<AdvertisementContent>): Ranking
  {
    if ads == [] then ranking
    else
      var last := ads[|ads| - 1];
      Rank(ranking, targetingGroupDao, ads[..|ads| - 1])[ScoreOf(targetingGroupDao, last) := last]
  }

  /** The scores of a list of advertisements. */
  function Scores(targetingGroupDao: string -> seq<TargetingGroup>, ads: seq<AdvertisementContent>): set<real>
  {
    set i | 0 <= i < |ads| :: ScoreOf(targetingGroupDao, ads[i])
  }

  /** `ads[i]` is the last advertisement of `ads` with its score. */
  predicate IsLastWithItsScore(targetingGroupDao: string -> seq<TargetingGroup>, ads: seq<AdvertisementContent>, i: nat)
    requires i < |ads|
  {
    forall j :: i < j < |ads| ==> ScoreOf(targetingGroupDao, ads[j]) != ScoreOf(targetingGroupDao, ads[i])
  }

  /** Appending one advertisement adds its score to the scores. */
  lemma ScoresOfSnoc(targetingGroupDao: string -> seq<TargetingGroup>, ads: seq<AdvertisementContent>)
    requires ads != []
    ensures Scores(targetingGroupDao, ads)
            == Scores(targetingGroupDao, ads[..|ads| - 1]) + {ScoreOf(targetingGroupDao, ads[|ads| - 1])}
  {
  }

  /** The keys after the loop are the keys before it plus every new score. */
  lemma {:induction false} RankKeys(ranking: Ranking, targetingGroupDao: string -> seq<TargetingGroup>,
                                    ads: seq<AdvertisementContent>)
    ensures Rank(ranking, targetingGroupDao, ads).Keys == ranking.Keys + Scores(targetingGroupDao, ads)
  {
    if ads != [] {
      RankKeys(ranking, targetingGroupDao, ads[..|ads| - 1]);
      ScoresOfSnoc(targetingGroupDao, ads);
    }
  }

  /** A new score maps to the last advertisement with that score: an equal key is overwritten. */
  lemma {:induction false} RankLastWriteWins(ranking: Ranking, targetingGroupDao: string -> seq<TargetingGroup>,
                                             ads: seq<AdvertisementContent>, i: nat)
    requires i < |ads| && IsLastWithItsScore(targetingGroupDao, ads, i)
    ensures ScoreOf(targetingGroupDao, ads[i]) in Rank(ranking, targetingGroupDao, ads)
    ensures Rank(ranking, targetingGroupDao, ads)[ScoreOf(targetingGroupDao, ads[i])] == ads[i]
  {
    var n := |ads| - 1;
    if i < n {
      var init := ads[..n];
      assert ads[i] == init[i];
      assert IsLastWithItsScore(targetingGroupDao, init, i) by {
        forall j | i < j < |init|
          ensures ScoreOf(targetingGroupDao, init[j]) != ScoreOf(targetingGroupDao, init[i])
        {
          assert init[j] == ads[j];
        }
      }
      RankLastWriteWins(ranking, targetingGroupDao, init, i);
    }
  }

  /** A key that no new score hits keeps its old advertisement. */
  lemma {:induction false} RankKeepsOtherKeys(ranking: Ranking, targetingGroupDao: string -> seq<TargetingGroup>,
                                              ads: seq<AdvertisementContent>, k: real)
    requires k in ranking && k !in Scores(targetingGroupDao, ads)
    ensures k in Rank(ranking, targetingGroupDao, ads)
    ensures Rank(ranking, targetingGroupDao, ads)[k] == ranking[k]
  {
    if ads != [] {
      ScoresOfSnoc(targetingGroupDao, ads);
      RankKeepsOtherKeys(ranking, targetingGroupDao, ads[..|ads| - 1], k);
    }
  }

  /** Among the advertisements of `ads` with score `k`, one is the last. */
  lemma {:induction false} LastWithScoreExists(targetingGroupDao: string -> seq<TargetingGroup>,
                                               ads: seq<AdvertisementContent>, j: nat)
    requires j < |ads|
    ensures exists i :: j <= i < |ads| && ScoreOf(targetingGroupDao, ads[i]) == ScoreOf(targetingGroupDao, ads[j])
                        && IsLastWithItsScore(targetingGroupDao, ads, i)
    decreases |ads| - j
  {
    if !IsLastWithItsScore(targetingGroupDao, ads, j) {
      var j' :| j < j' < |ads| && ScoreOf(targetingGroupDao, ads[j']) == ScoreOf(targetingGroupDao, ads[j]);
      LastWithScoreExists(targetingGroupDao, ads, j');
    }
  }

  /**
   Ranking a non-empty list into an empty map: the value at the greatest key is an
   advertisement of the list whose score is at least every other's, and the last one
   with that score.
   */
  lemma FreshRankWinner(targetingGroupDao: string -> seq<TargetingGroup>, ads: seq<AdvertisementContent>)
    returns (i: nat)
    requires ads != []
    ensures Rank(map[], targetingGroupDao, ads) != map[]
    ensures i < |ads| && IsLastWithItsScore(targetingGroupDao, ads, i)
    ensures Rank(map[], targetingGroupDao, ads)[LastKey(Rank(map[], targetingGroupDao, ads))] == ads[i]
    ensures forall j :: 0 <= j < |ads| ==> ScoreOf(targetingGroupDao, ads[j]) <= ScoreOf(targetingGroupDao, ads[i])
  {
    var empty: Ranking := map[];
    var firstScore := ScoreOf(targetingGroupDao, ads[0]);
    assert forall k :: k in empty ==> k <= firstScore;
    i := RankWinner(empty, targetingGroupDao, ads);
  }

  /**
   Ranking a non-empty list into a map whose keys some advertisement of the list reaches:
   the value at the greatest key is then an advertisement of the list, the last one with
   the top score, and that score is at least every old key. An old key equal to it is
   overwritten.
   */
  lemma RankWinner(ranking: Ranking, targetingGroupDao: string -> seq<TargetingGroup>, ads: seq<AdvertisementContent>)
    returns (i: nat)
    requires exists j :: 0 <= j < |ads| && forall k :: k in ranking ==> k <= ScoreOf(targetingGroupDao, ads[j])
    ensures Rank(ranking, targetingGroupDao, ads) != map[]
    ensures i < |ads| && IsLastWithItsScore(targetingGroupDao, ads, i)
    ensures Rank(ranking, targetingGroupDao, ads)[LastKey(Rank(ranking, targetingGroupDao, ads))] == ads[i]
    ensures forall j :: 0 <= j < |ads| ==> ScoreOf(targetingGroupDao, ads[j]) <= ScoreOf(targetingGroupDao, ads[i])
    ensures forall k :: k in ranking ==> k <= ScoreOf(targetingGroupDao, ads[i])
  {
    var after := Rank(ranking, targetingGroupDao, ads);
    RankKeys(ranking, targetingGroupDao, ads);
    var j0 :| 0 <= j0 < |ads| && forall k :: k in ranking ==> k <= ScoreOf(targetingGroupDao, ads[j0]);
    assert ScoreOf(targetingGroupDao, ads[j0]) in after;
    var k := LastKey(after);
    assert k in ranking ==> k == ScoreOf(targetingGroupDao, ads[j0]);
    assert k in Scores(targetingGroupDao, ads);
    var j :| 0 <= j < |ads| && ScoreOf(targetingGroupDao, ads[j]) == k;
    LastWithScoreExists(targetingGroupDao, ads, j);
    i :| j <= i < |ads| && ScoreOf(targetingGroupDao, ads[i]) == k && IsLastWithItsScore(targetingGroupDao, ads, i);
    RankLastWriteWins(ranking, targetingGroupDao, ads, i);
    forall m | 0 <= m < |ads| ensures ScoreOf(targetingGroupDao, ads[m]) <= k {
      assert ScoreOf(targetingGroupDao, ads[m]) in after;
    }
  }

  /** Putting the same list twice in a row is the same as putting it once. */
  lemma RankTwice(ranking: Ranking, targetingGroupDao: string -> seq<TargetingGroup>, ads: seq<AdvertisementContent>)
    ensures Rank(Rank(ranking, targetingGroupDao, ads), targetingGroupDao, ads) == Rank(ranking, targetingGroupDao, ads)
  {
    var once := Rank(ranking, targetingGroupDao, ads);
    var twice := Rank(once, targetingGroupDao, ads);
    RankKeys(ranking, targetingGroupDao, ads);
    RankKeys(once, targetingGroupDao, ads);
    forall k | k in twice ensures twice[k] == once[k] {
      if k in Scores(targetingGroupDao, ads) {
        var j :| 0 <= j < |ads| && ScoreOf(targetingGroupDao, ads[j]) == k;
        LastWithScoreExists(targetingGroupDao, ads, j);
        var i :| j <= i < |ads| && ScoreOf(targetingGroupDao, ads[i]) == k && IsLastWithItsScore(targetingGroupDao, ads, i);
        RankLastWriteWins(ranking, targetingGroupDao, ads, i);
        RankLastWriteWins(once, targetingGroupDao, ads, i);
      } else {
        RankKeepsOtherKeys(once, targetingGroupDao, ads, k);
      }
    }
  }

  // ---------------------------------------------------------------------------
  // The whole selection
  // ---------------------------------------------------------------------------

  /**
   `selectAdvertisement(customerId, marketplaceId)` on an instance, given the targeting
   evaluator; returns the outcome and the instance after the call.
   */
  function SelectAdvertisement(logic: SelectionLogic, evaluate: Evaluator,
                               customerId: string, marketplaceId: Option<string>): Selection
  {
    if IsEmptyString(marketplaceId) then Selection(Returned(EmptyGeneratedAdvertisement), logic)
    else
      var contents := logic.contentDao(marketplaceId.value);
      if !IsNotEmptyList(contents) then Selection(Returned(EmptyGeneratedAdvertisement), logic)
      else
        var requestContext := RequestContext(customerId, marketplaceId.value);
        match FilterEligible(evaluate, requestContext, logic.targetingGroupDao, contents.value)
        case Err(fault) => Selection(Threw(fault), logic)
        case Ok(eligible) =>
          var ranking := Rank(logic.highestClickThroughRate, logic.targetingGroupDao, eligible);
          var after := logic.(highestClickThroughRate := ranking);
          if ranking == map[] then Selection(Threw(NoSuchElementException), after)
          else Selection(Returned(GeneratedAdvertisement(ranking[LastKey(ranking)])), after)
  }
}
