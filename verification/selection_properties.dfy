/**
 Properties of a whole `selectAdvertisement` call: the empty-result paths, the two
 exceptions, the ranking map that outlives the call, and which advertisement wins.
 */
module SelectionProperties {
  import opened AdvertisingModel
  import opened AdvertisementSelectionLogic

  /** The scores of the advertisements of `contents` that pass the filter. */
  function EligibleScores(evaluate: Evaluator, requestContext: RequestContext,
                          targetingGroupDao: string -> seq<TargetingGroup>,
                          contents: seq<AdvertisementContent>): set<real>
  {
    set ad | ad in contents && IsEligible(evaluate, requestContext, targetingGroupDao, ad) :: ScoreOf(targetingGroupDao, ad)
  }

  /** The marketplace id is present and not empty, and the content DAO returns a non-empty list for it. */
  predicate HasContents(logic: SelectionLogic, marketplaceId: Option<string>)
  {
    !IsEmptyString(marketplaceId) && IsNotEmptyList(logic.contentDao(marketplaceId.value))
  }

  /** The marketplace's content list, when it is there. */
  function ContentsOf(logic: SelectionLogic, marketplaceId: Option<string>): seq<AdvertisementContent>
    requires HasContents(logic, marketplaceId)
  {
    logic.contentDao(marketplaceId.value).value
  }

  /** No advertisement's targeting evaluation throws. */
  predicate NoEvaluationFault(logic: SelectionLogic, evaluate: Evaluator, customerId: string, marketplaceId: Option<string>)
    requires HasContents(logic, marketplaceId)
  {
    var contents := ContentsOf(logic, marketplaceId);
    forall i :: 0 <= i < |contents| ==>
      !FaultsOn(evaluate, RequestContext(customerId, marketplaceId.value), logic.targetingGroupDao, contents[i])
  }

  /** The filtered list of a call whose targeting evaluations do not throw. */
  function EligibleOf(logic: SelectionLogic, evaluate: Evaluator, customerId: string, marketplaceId: Option<string>)
    : (eligible: seq<AdvertisementContent>)
    requires HasContents(logic, marketplaceId)
    requires NoEvaluationFault(logic, evaluate, customerId, marketplaceId)
    ensures forall ad :: ad in eligible <==>
              ad in ContentsOf(logic, marketplaceId)
              && IsEligible(evaluate, RequestContext(customerId, marketplaceId.value), logic.targetingGroupDao, ad)
  {
    FilterKeepsEligibleInOrder(evaluate, RequestContext(customerId, marketplaceId.value), logic.targetingGroupDao,
                               ContentsOf(logic, marketplaceId));
    FilterEligible(evaluate, RequestContext(customerId, marketplaceId.value), logic.targetingGroupDao,
                   ContentsOf(logic, marketplaceId)).value
  }

  /**
   A null or empty marketplace id returns the empty advertisement and leaves the
   instance as it was; the result is the same whatever the DAOs and the evaluator
   would have answered, so neither is consulted.
   */
  lemma EmptyMarketplaceIdYieldsEmptyAdvertisement(logic: SelectionLogic, evaluate: Evaluator, customerId: string,
                                                   marketplaceId: Option<string>,
                                                   otherLogic: SelectionLogic, otherEvaluate: Evaluator)
    requires IsEmptyString(marketplaceId)
    ensures SelectAdvertisement(logic, evaluate, customerId, marketplaceId)
            == Selection(Returned(EmptyGeneratedAdvertisement), logic)
    ensures SelectAdvertisement(otherLogic, otherEvaluate, customerId, marketplaceId).outcome
            == SelectAdvertisement(logic, evaluate, customerId, marketplaceId).outcome
  {
  }

  /** A null or empty content list returns the empty advertisement and leaves the instance as it was. */
  lemma NoContentYieldsEmptyAdvertisement(logic: SelectionLogic, evaluate: Evaluator, customerId: string,
                                          marketplaceId: Option<string>)
    requires !IsEmptyString(marketplaceId)
    requires !IsNotEmptyList(logic.contentDao(marketplaceId.value))
    ensures SelectAdvertisement(logic, evaluate, customerId, marketplaceId)
            == Selection(Returned(EmptyGeneratedAdvertisement), logic)
  {
  }

  /**
   The call throws NullPointerException exactly when some advertisement's `anyMatch`
   reaches a group whose evaluation throws; the ranking map is then untouched.
   */
  lemma EvaluationFaultThrowsNullPointer(logic: SelectionLogic, evaluate: Evaluator, customerId: string,
                                         marketplaceId: Option<string>)
    requires HasContents(logic, marketplaceId)
    ensures SelectAdvertisement(logic, evaluate, customerId, marketplaceId).outcome == Threw(NullPointerException)
            <==> !NoEvaluationFault(logic, evaluate, customerId, marketplaceId)
    ensures !NoEvaluationFault(logic, evaluate, customerId, marketplaceId) ==>
              SelectAdvertisement(logic, evaluate, customerId, marketplaceId).logic == logic
  {
    var contents := ContentsOf(logic, marketplaceId);
    var filtered := FilterEligible(evaluate, RequestContext(customerId, marketplaceId.value), logic.targetingGroupDao, contents);
    assert filtered.Err? <==> !NoEvaluationFault(logic, evaluate, customerId, marketplaceId);
  }

  /** The scores put into the map are the scores of the eligible content of the marketplace. */
  lemma ScoresOfEligible(logic: SelectionLogic, evaluate: Evaluator, customerId: string, marketplaceId: Option<string>)
    requires HasContents(logic, marketplaceId)
    requires NoEvaluationFault(logic, evaluate, customerId, marketplaceId)
    ensures Scores(logic.targetingGroupDao, EligibleOf(logic, evaluate, customerId, marketplaceId))
            == EligibleScores(evaluate, RequestContext(customerId, marketplaceId.value), logic.targetingGroupDao,
                              ContentsOf(logic, marketplaceId))
  {
    var requestContext := RequestContext(customerId, marketplaceId.value);
    var dao := logic.targetingGroupDao;
    var eligible := EligibleOf(logic, evaluate, customerId, marketplaceId);
    var contents := ContentsOf(logic, marketplaceId);
    forall k | k in Scores(dao, eligible) ensures k in EligibleScores(evaluate, requestContext, dao, contents) {
      var i :| 0 <= i < |eligible| && ScoreOf(dao, eligible[i]) == k;
      assert eligible[i] in eligible;
    }
    forall k | k in EligibleScores(evaluate, requestContext, dao, contents) ensures k in Scores(dao, eligible) {
      var ad :| ad in contents && IsEligible(evaluate, requestContext, dao, ad) && ScoreOf(dao, ad) == k;
      assert ad in eligible;
      var i :| 0 <= i < |eligible| && eligible[i] == ad;
    }
  }

  /**
   The ranking map is instance state that is never cleared: after a call whose
   targeting evaluations do not throw, its keys are the keys it had before plus the score
   of every eligible advertisement, and a key no new score hits keeps its old
   advertisement. The map never loses a key.
   */
  lemma RankingOnlyGrows(logic: SelectionLogic, evaluate: Evaluator, customerId: string, marketplaceId: Option<string>)
    ensures logic.highestClickThroughRate.Keys
            <= SelectAdvertisement(logic, evaluate, customerId, marketplaceId).logic.highestClickThroughRate.Keys
    ensures HasContents(logic, marketplaceId) && NoEvaluationFault(logic, evaluate, customerId, marketplaceId) ==>
              SelectAdvertisement(logic, evaluate, customerId, marketplaceId).logic.highestClickThroughRate.Keys
              == logic.highestClickThroughRate.Keys
                 + EligibleScores(evaluate, RequestContext(customerId, marketplaceId.value), logic.targetingGroupDao,
                                  ContentsOf(logic, marketplaceId))
    ensures forall k :: k in logic.highestClickThroughRate
                        && (HasContents(logic, marketplaceId) && NoEvaluationFault(logic, evaluate, customerId, marketplaceId)
                            ==> k !in EligibleScores(evaluate, RequestContext(customerId, marketplaceId.value),
                                                     logic.targetingGroupDao, ContentsOf(logic, marketplaceId)))
                        ==> SelectAdvertisement(logic, evaluate, customerId, marketplaceId).logic.highestClickThroughRate[k]
                            == logic.highestClickThroughRate[k]
  {
    if HasContents(logic, marketplaceId) && NoEvaluationFault(logic, evaluate, customerId, marketplaceId) {
      var eligible := EligibleOf(logic, evaluate, customerId, marketplaceId);
      RankKeys(logic.highestClickThroughRate, logic.targetingGroupDao, eligible);
      ScoresOfEligible(logic, evaluate, customerId, marketplaceId);
      forall k | k in logic.highestClickThroughRate && k !in Scores(logic.targetingGroupDao, eligible)
        ensures Rank(logic.highestClickThroughRate, logic.targetingGroupDao, eligible)[k]
                == logic.highestClickThroughRate[k]
      {
        RankKeepsOtherKeys(logic.highestClickThroughRate, logic.targetingGroupDao, eligible, k);
      }
    }
  }

  /**
   `lastKey()` on an empty map throws: the call throws NoSuchElementException exactly
   when there is content, no targeting evaluation throws, none of the content is eligible,
   and the ranking map was empty before the call.
   */
  lemma NothingRankedThrowsNoSuchElement(logic: SelectionLogic, evaluate: Evaluator, customerId: string,
                                         marketplaceId: Option<string>)
    ensures SelectAdvertisement(logic, evaluate, customerId, marketplaceId).outcome == Threw(NoSuchElementException)
            <==> && HasContents(logic, marketplaceId)
                 && NoEvaluationFault(logic, evaluate, customerId, marketplaceId)
                 && logic.highestClickThroughRate == map[]
                 && forall ad :: ad in ContentsOf(logic, marketplaceId) ==>
                      !IsEligible(evaluate, RequestContext(customerId, marketplaceId.value), logic.targetingGroupDao, ad)
  {
    RankingOnlyGrows(logic, evaluate, customerId, marketplaceId);
    if HasContents(logic, marketplaceId) && NoEvaluationFault(logic, evaluate, customerId, marketplaceId) {
      var requestContext := RequestContext(customerId, marketplaceId.value);
      var contents := ContentsOf(logic, marketplaceId);
      var after := SelectAdvertisement(logic, evaluate, customerId, marketplaceId).logic.highestClickThroughRate;
      if after == map[] {
        assert after.Keys == {};
        forall ad | ad in contents ensures !IsEligible(evaluate, requestContext, logic.targetingGroupDao, ad) {
          assert IsEligible(evaluate, requestContext, logic.targetingGroupDao, ad)
                 ==> ScoreOf(logic.targetingGroupDao, ad) in after.Keys;
        }
      } else {
        var k :| k in after;
        if logic.highestClickThroughRate == map[] {
          var ad :| ad in contents && IsEligible(evaluate, requestContext, logic.targetingGroupDao, ad)
                    && ScoreOf(logic.targetingGroupDao, ad) == k;
        }
      }
    }
  }

  /**
   On a fresh instance (empty ranking map), when no targeting evaluation throws and some
   content is eligible, the call returns an eligible advertisement whose score is at
   least every eligible advertisement's score, and which is the last in filtered list
   order among those with that score.
   */
  lemma FreshInstanceSelectsBestEligible(logic: SelectionLogic, evaluate: Evaluator, customerId: string,
                                         marketplaceId: Option<string>)
    requires logic.highestClickThroughRate == map[]
    requires HasContents(logic, marketplaceId)
    requires NoEvaluationFault(logic, evaluate, customerId, marketplaceId)
    requires exists ad :: ad in ContentsOf(logic, marketplaceId)
                          && IsEligible(evaluate, RequestContext(customerId, marketplaceId.value), logic.targetingGroupDao, ad)
    ensures var eligible := EligibleOf(logic, evaluate, customerId, marketplaceId);
            exists i :: 0 <= i < |eligible|
              && SelectAdvertisement(logic, evaluate, customerId, marketplaceId).outcome
                 == Returned(GeneratedAdvertisement(eligible[i]))
              && eligible[i] in ContentsOf(logic, marketplaceId)
              && IsEligible(evaluate, RequestContext(customerId, marketplaceId.value), logic.targetingGroupDao, eligible[i])
              && (forall ad :: ad in ContentsOf(logic, marketplaceId)
                    && IsEligible(evaluate, RequestContext(customerId, marketplaceId.value), logic.targetingGroupDao, ad)
                    ==> ScoreOf(logic.targetingGroupDao, ad) <= ScoreOf(logic.targetingGroupDao, eligible[i]))
              && IsLastWithItsScore(logic.targetingGroupDao, eligible, i)
  {
    var requestContext := RequestContext(customerId, marketplaceId.value);
    var dao := logic.targetingGroupDao;
    var contents := ContentsOf(logic, marketplaceId);
    var eligible := EligibleOf(logic, evaluate, customerId, marketplaceId);
    var ad0 :| ad0 in contents && IsEligible(evaluate, requestContext, dao, ad0);
    assert ad0 in eligible;
    var i := FreshRankWinner(dao, eligible);
    assert eligible[i] in eligible;
    forall ad | ad in contents && IsEligible(evaluate, requestContext, dao, ad)
      ensures ScoreOf(dao, ad) <= ScoreOf(dao, eligible[i])
    {
      assert ad in eligible;
      var m :| 0 <= m < |eligible| && eligible[m] == ad;
    }
  }

  /**
   Because the map outlives the call, an advertisement ranked by an earlier call (for
   any marketplace) wins whenever its key is above every score of this call.
   */
  lemma EarlierWinnerCarriesOver(logic: SelectionLogic, evaluate: Evaluator, customerId: string,
                                 marketplaceId: Option<string>)
    requires logic.highestClickThroughRate != map[]
    requires HasContents(logic, marketplaceId)
    requires NoEvaluationFault(logic, evaluate, customerId, marketplaceId)
    requires forall s :: s in EligibleScores(evaluate, RequestContext(customerId, marketplaceId.value),
                                             logic.targetingGroupDao, ContentsOf(logic, marketplaceId))
                         ==> s < LastKey(logic.highestClickThroughRate)
    ensures SelectAdvertisement(logic, evaluate, customerId, marketplaceId).outcome
            == Returned(GeneratedAdvertisement(logic.highestClickThroughRate[LastKey(logic.highestClickThroughRate)]))
  {
    var before := logic.highestClickThroughRate;
    var top := LastKey(before);
    RankingOnlyGrows(logic, evaluate, customerId, marketplaceId);
    var after := SelectAdvertisement(logic, evaluate, customerId, marketplaceId).logic.highestClickThroughRate;
    assert top in after;
    assert LastKey(after) == top;
  }

  /**
   The other side of `EarlierWinnerCarriesOver`: when some eligible advertisement of this
   call scores at least every key already in the map, the call returns an advertisement
   of this call. It is the last one in filtered order with the top score, which is at
   least every eligible score and every old key; an old key equal to it now holds it.
   */
  lemma NewTopScoreWins(logic: SelectionLogic, evaluate: Evaluator, customerId: string,
                        marketplaceId: Option<string>)
    requires HasContents(logic, marketplaceId)
    requires NoEvaluationFault(logic, evaluate, customerId, marketplaceId)
    requires exists ad :: ad in ContentsOf(logic, marketplaceId)
                          && IsEligible(evaluate, RequestContext(customerId, marketplaceId.value), logic.targetingGroupDao, ad)
                          && forall k :: k in logic.highestClickThroughRate ==> k <= ScoreOf(logic.targetingGroupDao, ad)
    ensures var eligible := EligibleOf(logic, evaluate, customerId, marketplaceId);
            var selection := SelectAdvertisement(logic, evaluate, customerId, marketplaceId);
            exists i :: 0 <= i < |eligible|
              && selection.outcome == Returned(GeneratedAdvertisement(eligible[i]))
              && IsLastWithItsScore(logic.targetingGroupDao, eligible, i)
              && (forall ad :: ad in ContentsOf(logic, marketplaceId)
                    && IsEligible(evaluate, RequestContext(customerId, marketplaceId.value), logic.targetingGroupDao, ad)
                    ==> ScoreOf(logic.targetingGroupDao, ad) <= ScoreOf(logic.targetingGroupDao, eligible[i]))
              && (forall k :: k in logic.highestClickThroughRate ==> k <= ScoreOf(logic.targetingGroupDao, eligible[i]))
              && ScoreOf(logic.targetingGroupDao, eligible[i]) in selection.logic.highestClickThroughRate
              && selection.logic.highestClickThroughRate[ScoreOf(logic.targetingGroupDao, eligible[i])] == eligible[i]
  {
    var requestContext := RequestContext(customerId, marketplaceId.value);
    var dao := logic.targetingGroupDao;
    var contents := ContentsOf(logic, marketplaceId);
    var eligible := EligibleOf(logic, evaluate, customerId, marketplaceId);
    var ad0 :| ad0 in contents && IsEligible(evaluate, requestContext, dao, ad0)
               && forall k :: k in logic.highestClickThroughRate ==> k <= ScoreOf(dao, ad0);
    assert ad0 in eligible;
    var j0 :| 0 <= j0 < |eligible| && eligible[j0] == ad0;
    var i := RankWinner(logic.highestClickThroughRate, dao, eligible);
    RankLastWriteWins(logic.highestClickThroughRate, dao, eligible, i);
    forall ad | ad in contents && IsEligible(evaluate, requestContext, dao, ad)
      ensures ScoreOf(dao, ad) <= ScoreOf(dao, eligible[i])
    {
      assert ad in eligible;
      var m :| 0 <= m < |eligible| && eligible[m] == ad;
    }
  }

  /**
   Repeating a call with identical input gives the same outcome and leaves the
   ranking map as the first call left it: the second round of `put`s rewrites every
   key with the value it already holds.
   */
  lemma RepeatedCallIsStable(logic: SelectionLogic, evaluate: Evaluator, customerId: string,
                             marketplaceId: Option<string>)
    ensures var first := SelectAdvertisement(logic, evaluate, customerId, marketplaceId);
            var second := SelectAdvertisement(first.logic, evaluate, customerId, marketplaceId);
            second.outcome == first.outcome && second.logic == first.logic
  {
    var first := SelectAdvertisement(logic, evaluate, customerId, marketplaceId);
    if HasContents(logic, marketplaceId) && NoEvaluationFault(logic, evaluate, customerId, marketplaceId) {
      var eligible := EligibleOf(logic, evaluate, customerId, marketplaceId);
      RankTwice(logic.highestClickThroughRate, logic.targetingGroupDao, eligible);
    } else if HasContents(logic, marketplaceId) {
      EvaluationFaultThrowsNullPointer(logic, evaluate, customerId, marketplaceId);
    }
  }

  /**
   A concrete instance of the carried-over winner: one instance serves "US" and then
   "UK"; the "UK" call returns the "US" advertisement, whose rate 0.9 beats the only
   "UK" rate 0.5.
   */
  lemma UsWinnerReturnedForUk()
    ensures var usAd := AdvertisementContent("us-ad", "US creative");
            var ukAd := AdvertisementContent("uk-ad", "UK creative");
            var logic := NewSelectionLogic(
              m => if m == "US" then Some([usAd]) else if m == "UK" then Some([ukAd]) else None,
              id => if id == "us-ad" then [TargetingGroup("us-group", "us-ad", 0.9)]
                    else if id == "uk-ad" then [TargetingGroup("uk-group", "uk-ad", 0.5)]
                    else []);
            var evaluate: Evaluator := (requestContext, group) => Evaluated(TRUE);
            var first := SelectAdvertisement(logic, evaluate, "customer", Some("US"));
            var second := SelectAdvertisement(first.logic, evaluate, "customer", Some("UK"));
            first.outcome == Returned(GeneratedAdvertisement(usAd))
            && second.outcome == Returned(GeneratedAdvertisement(usAd))
  {
    var usAd := AdvertisementContent("us-ad", "US creative");
    var ukAd := AdvertisementContent("uk-ad", "UK creative");
    var usGroups := [TargetingGroup("us-group", "us-ad", 0.9)];
    var ukGroups := [TargetingGroup("uk-group", "uk-ad", 0.5)];
    var dao := id => if id == "us-ad" then usGroups else if id == "uk-ad" then ukGroups else [];
    var logic := NewSelectionLogic(
      m => if m == "US" then Some([usAd]) else if m == "UK" then Some([ukAd]) else None, dao);
    var evaluate: Evaluator := (requestContext, group) => Evaluated(TRUE);
    var us := RequestContext("customer", "US");
    var uk := RequestContext("customer", "UK");

    assert ScoreOf(dao, usAd) == 0.9 by {
      assert usGroups[1..] == [];
    }
    assert ScoreOf(dao, ukAd) == 0.5 by {
      assert ukGroups[1..] == [];
    }
    assert FilterEligible(evaluate, us, dao, [usAd]) == Ok([usAd]) by {
      assert AnyGroupTrue(evaluate, us, dao(usAd.contentId)) == Matched;
      assert [usAd][1..] == [];
      assert [usAd] + [] == [usAd];
    }
    assert FilterEligible(evaluate, uk, dao, [ukAd]) == Ok([ukAd]) by {
      assert AnyGroupTrue(evaluate, uk, dao(ukAd.contentId)) == Matched;
      assert [ukAd][1..] == [];
      assert [ukAd] + [] == [ukAd];
    }
    var afterUs := map[0.9 := usAd];
    assert Rank(map[], dao, [usAd]) == afterUs by {
      assert [usAd][..0] == [];
    }
    var afterUk := afterUs[0.5 := ukAd];
    assert Rank(afterUs, dao, [ukAd]) == afterUk by {
      assert [ukAd][..0] == [];
    }
    assert 0.9 in afterUs && 0.9 in afterUk;
    assert LastKey(afterUs) == 0.9;
    assert LastKey(afterUk) == 0.9;
    var first := SelectAdvertisement(logic, evaluate, "customer", Some("US"));
    assert first.logic.highestClickThroughRate == afterUs;
  }
}
