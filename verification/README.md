# Advertisement selection: a Dafny model

This project models the decision logic of the advertisement service's business layer:

- `AdvertisementSelectionLogic.selectAdvertisement(customerId, marketplaceId)`. It rejects
  a null or empty marketplace id and fetches the marketplace's advertisement content. It keeps
  the content that has at least one targeting group the targeting evaluator finds TRUE. It
  scores each kept advertisement by the largest click-through rate over *all* of its targeting
  groups, never below 0. It puts `score -> advertisement` into a sorted map and returns the
  advertisement at the greatest key, wrapped in a `GeneratedAdvertisement`. When there is no
  content, it returns an `EmptyGeneratedAdvertisement`.
- `SelectionLogicCallable.call()`. It evaluates a group's targeting predicates against one
  request context and returns TRUE when every result is TRUE, and FALSE otherwise.

The sorted map `highestClickThroughRate` is an instance field. The constructor creates it and
nothing ever clears it. The model therefore treats it as explicit state. `SelectAdvertisement`
takes the instance (`SelectionLogic`: both DAOs and the map) before the call and returns the
`Outcome` together with the instance after the call. An `Outcome` is either the returned
advertisement or the exception that escapes.

Files:

- `model.dfy` (module `AdvertisingModel`) holds the entities. These are the tri-state
  `TargetingPredicateResult`, `RequestContext`, `AdvertisementContent`, `TargetingGroup`
  (with its click-through rate as a `real`) and `GeneratedAdvertisement`. The module also has
  `Option` for Java nulls, `Result`/`Fault` for the two exceptions that can escape, and the
  `StringUtils.isEmpty` and `CollectionUtils.isNotEmpty` predicates.
- `callable.dfy` (module `SelectionLogicCallable`) holds the all-TRUE fold of `call()`.
- `selection.dfy` (module `AdvertisementSelectionLogic`) holds the pipeline stages and their
  lemmas: `anyMatch` over the groups, the filter, the score, the ranking map, `lastKey()` and
  the whole `SelectAdvertisement`.
- `selection_properties.dfy` (module `SelectionProperties`) holds properties of whole calls.
  These cover the empty-result paths, the two exceptions, the map that outlives a call, the
  winner on a fresh instance, a winner carried over from an earlier call, a new winner that
  displaces the earlier ones, and the stability of repeated calls.

Collaborators are parameters:

- The content DAO is a total function from marketplace id to a nullable list.
- The targeting-group DAO is a total function from content id to a list.
- The targeting evaluator is a total function from (request context, group) to either a
  `TargetingPredicateResult` or `Thrown`.

Both DAOs are deterministic functions, so the second `targetingGroupDao.get` per
advertisement (line 100) returns the groups the filter saw (line 80).

The Javadoc of `selectAdvertisement` (AdvertisementSelectionLogic.java:57-59) says that a call
returns an `EmptyGeneratedAdvertisement` when no advertisement is available or eligible. The
code returns it only for a null or empty marketplace id and for a null or empty content list.
The model follows the code:

- The ranking map belongs to the instance and persists across calls. When no content of this
  call is eligible, or none scores as high as the map's greatest key, the call returns an
  advertisement put by an earlier call, possibly for another marketplace
  (`EarlierWinnerCarriesOver`, `UsWinnerReturnedForUk`). Otherwise this call's top-scoring
  eligible advertisement wins (`NewTopScoreWins`).
- When there is content, none of it is eligible and the map is still empty, `lastKey()` throws
  NoSuchElementException (`NothingRankedThrowsNoSuchElement`).
- The evaluator's exception is caught and leaves `predicateResult` null. The following
  `isTrue()` throws NullPointerException (`EvaluationFaultThrowsNullPointer`).
- Equal scores share one key and `put` overwrites it, so among ties the last eligible
  advertisement in list order wins (`RankLastWriteWins`).

## Model

| member | source | states |
|---|---|---|
| SelectionLogicCallable.AllMatchTrue | src/com/amazon/ata/advertising/service/businesslogic/SelectionLogicCallable.java:20-22 | the `allMatch` fold is true exactly when every predicate result is TRUE, so an empty list gives true |
| SelectionLogicCallable.EvaluateAll | src/com/amazon/ata/advertising/service/businesslogic/SelectionLogicCallable.java:20-21 | one result per predicate, in order, each evaluated against the single request context |
| SelectionLogicCallable.Call | src/com/amazon/ata/advertising/service/businesslogic/SelectionLogicCallable.java:18-25 | the result is never INDETERMINATE; it is TRUE iff every predicate evaluates to TRUE; an empty predicate list gives TRUE; any FALSE or INDETERMINATE result gives FALSE |
| SelectionLogicCallable.CallDependsOnlyOnItsContext | src/com/amazon/ata/advertising/service/businesslogic/SelectionLogicCallable.java:13-21 | two evaluators that agree on the callable's own request context give the same result, so only that one context is consulted |
| SelectionLogicCallable.CallIgnoresPredicateOrder | src/com/amazon/ata/advertising/service/businesslogic/SelectionLogicCallable.java:20-22 | any reordering (same multiset) of the predicates gives the same result |
| SelectionLogicCallable.CallOfConcatenation | src/com/amazon/ata/advertising/service/businesslogic/SelectionLogicCallable.java:20-24 | the group of two predicate lists joined is TRUE iff each list on its own is TRUE (the combination is a conjunction) |
| AdvertisingModel.IsEmptyString | src/com/amazon/ata/advertising/service/businesslogic/AdvertisementSelectionLogic.java:73 | no contract of its own: the `StringUtils.isEmpty` guard, true of null and of ""; see EmptyMarketplaceIdYieldsEmptyAdvertisement |
| AdvertisingModel.IsNotEmptyList | src/com/amazon/ata/advertising/service/businesslogic/AdvertisementSelectionLogic.java:78 | no contract of its own: the `CollectionUtils.isNotEmpty` guard, false of null and of the empty list; see NoContentYieldsEmptyAdvertisement |
| AdvertisementSelectionLogic.NewSelectionLogic | src/com/amazon/ata/advertising/service/businesslogic/AdvertisementSelectionLogic.java:41-46 | no contract of its own: the constructor keeps both DAOs and starts the ranking map empty; see FreshInstanceSelectsBestEligible and UsWinnerReturnedForUk |
| AdvertisementSelectionLogic.AnyGroupTrue | src/com/amazon/ata/advertising/service/businesslogic/AdvertisementSelectionLogic.java:80-93 | no contract of its own: the short-circuit `anyMatch` over one advertisement's groups; see AnyGroupTrueCharacterised and MatchedIffSomeGroupTrue |
| AdvertisementSelectionLogic.AnyGroupTrueCharacterised | src/com/amazon/ata/advertising/service/businesslogic/AdvertisementSelectionLogic.java:80-93 | an advertisement's `anyMatch` is TRUE iff it stops at a group evaluating to TRUE with every earlier group evaluated and not TRUE; it faults iff it stops the same way at a group whose evaluation throws; it is false iff every group is evaluated and none is TRUE |
| AdvertisementSelectionLogic.MatchedIffSomeGroupTrue | src/com/amazon/ata/advertising/service/businesslogic/AdvertisementSelectionLogic.java:80-93 | when no evaluation throws, an advertisement passes the filter iff at least one of its groups evaluates to TRUE |
| AdvertisementSelectionLogic.FilterEligible | src/com/amazon/ata/advertising/service/businesslogic/AdvertisementSelectionLogic.java:79-94 | the filter throws NullPointerException iff some advertisement's `anyMatch` reaches an evaluation that throws, and returns a list otherwise |
| AdvertisementSelectionLogic.FilterKeepsEligibleInOrder | src/com/amazon/ata/advertising/service/businesslogic/AdvertisementSelectionLogic.java:79-94 | a returned filter list is an order-preserving subsequence of the contents; it holds every eligible advertisement as often as the contents do, and nothing else |
| AdvertisementSelectionLogic.HighestRateFrom | src/com/amazon/ata/advertising/service/businesslogic/AdvertisementSelectionLogic.java:101-105 | no contract of its own: the inner loop, replacing the running rate by any strictly larger group rate; see HighestRateFromBounds |
| AdvertisementSelectionLogic.Score | src/com/amazon/ata/advertising/service/businesslogic/AdvertisementSelectionLogic.java:99-105 | no contract of its own: the inner loop started at 0; see ScoreIsFlooredMaximum |
| AdvertisementSelectionLogic.ScoreOf | src/com/amazon/ata/advertising/service/businesslogic/AdvertisementSelectionLogic.java:99-105 | no contract of its own: the score of an advertisement's re-fetched groups; see ScoreIsFlooredMaximum and ScoresOfEligible |
| AdvertisementSelectionLogic.HighestRateFromBounds | src/com/amazon/ata/advertising/service/businesslogic/AdvertisementSelectionLogic.java:99-105 | the inner loop's running rate ends at least at its start, at least at every group's rate, and equal to its start or to some group's rate |
| AdvertisementSelectionLogic.ScoreIsFlooredMaximum | src/com/amazon/ata/advertising/service/businesslogic/AdvertisementSelectionLogic.java:99-105 | an advertisement's score is at least 0, at least every group's click-through rate (TRUE or not), and is 0 or some group's rate; it is the only value with these properties |
| AdvertisementSelectionLogic.LastKey | src/com/amazon/ata/advertising/service/businesslogic/AdvertisementSelectionLogic.java:109 | `lastKey()` of a non-empty map is a key of the map that is at least every other key |
| AdvertisementSelectionLogic.Rank | src/com/amazon/ata/advertising/service/businesslogic/AdvertisementSelectionLogic.java:98-107 | no contract of its own: `put(score, ad)` for each eligible advertisement in list order; see RankKeys, RankLastWriteWins, RankKeepsOtherKeys and RankTwice, which together fix the resulting map |
| AdvertisementSelectionLogic.RankKeys | src/com/amazon/ata/advertising/service/businesslogic/AdvertisementSelectionLogic.java:98-107 | after the ranking loop the map's keys are its old keys plus the score of every ranked advertisement |
| AdvertisementSelectionLogic.RankLastWriteWins | src/com/amazon/ata/advertising/service/businesslogic/AdvertisementSelectionLogic.java:106 | a score maps to the last advertisement in list order with that score, because `put` overwrites an equal key |
| AdvertisementSelectionLogic.RankKeepsOtherKeys | src/com/amazon/ata/advertising/service/businesslogic/AdvertisementSelectionLogic.java:98-107 | a key that no ranked advertisement's score hits keeps its old advertisement |
| AdvertisementSelectionLogic.RankTwice | src/com/amazon/ata/advertising/service/businesslogic/AdvertisementSelectionLogic.java:98-107 | ranking the same list a second time leaves the map unchanged |
| AdvertisementSelectionLogic.FreshRankWinner | src/com/amazon/ata/advertising/service/businesslogic/AdvertisementSelectionLogic.java:98-111 | ranking a non-empty list into an empty map puts at the greatest key the last advertisement with the top score, and that score is at least every ranked advertisement's score |
| AdvertisementSelectionLogic.RankWinner | src/com/amazon/ata/advertising/service/businesslogic/AdvertisementSelectionLogic.java:98-111 | ranking a list into a map whose keys are all at most one ranked advertisement's score puts at the greatest key the last advertisement with the top score; that score is at least every ranked score and every old key |
| AdvertisementSelectionLogic.SelectAdvertisement | src/com/amazon/ata/advertising/service/businesslogic/AdvertisementSelectionLogic.java:71-118 | no contract of its own: the whole `selectAdvertisement` call on an instance; see EmptyMarketplaceIdYieldsEmptyAdvertisement, NoContentYieldsEmptyAdvertisement, EvaluationFaultThrowsNullPointer, NothingRankedThrowsNoSuchElement, RankingOnlyGrows, FreshInstanceSelectsBestEligible, EarlierWinnerCarriesOver, NewTopScoreWins and RepeatedCallIsStable |
| SelectionProperties.EmptyMarketplaceIdYieldsEmptyAdvertisement | src/com/amazon/ata/advertising/service/businesslogic/AdvertisementSelectionLogic.java:72-74 | a null or empty marketplace id returns the empty advertisement and leaves the instance unchanged; the outcome is the same whatever the DAOs, the ranking map and the evaluator are, so none is consulted |
| SelectionProperties.NoContentYieldsEmptyAdvertisement | src/com/amazon/ata/advertising/service/businesslogic/AdvertisementSelectionLogic.java:76-78 | a null or empty content list returns the empty advertisement and leaves the instance unchanged |
| SelectionProperties.EvaluationFaultThrowsNullPointer | src/com/amazon/ata/advertising/service/businesslogic/AdvertisementSelectionLogic.java:84-92 | when there is content, the call throws NullPointerException iff some advertisement's `anyMatch` reaches an evaluation that throws; the instance is then unchanged |
| SelectionProperties.ScoresOfEligible | src/com/amazon/ata/advertising/service/businesslogic/AdvertisementSelectionLogic.java:79-106 | the scores put into the map are exactly the scores of the marketplace's eligible content |
| SelectionProperties.RankingOnlyGrows | src/com/amazon/ata/advertising/service/businesslogic/AdvertisementSelectionLogic.java:98-109 | the map never loses a key; after a call without an evaluation fault its keys are the old keys plus every eligible advertisement's score; every other key keeps its advertisement |
| SelectionProperties.NothingRankedThrowsNoSuchElement | src/com/amazon/ata/advertising/service/businesslogic/AdvertisementSelectionLogic.java:109 | the call throws NoSuchElementException iff there is content, no evaluation throws, no content is eligible, and the map was empty before the call |
| SelectionProperties.FreshInstanceSelectsBestEligible | src/com/amazon/ata/advertising/service/businesslogic/AdvertisementSelectionLogic.java:98-113 | on an empty map with some eligible content, the returned advertisement is eligible, scores at least every eligible advertisement, and is the last with its score in filtered order |
| SelectionProperties.EarlierWinnerCarriesOver | src/com/amazon/ata/advertising/service/businesslogic/AdvertisementSelectionLogic.java:106-113 | when the map's greatest key from earlier calls exceeds every score of this call, the call returns that earlier advertisement |
| SelectionProperties.NewTopScoreWins | src/com/amazon/ata/advertising/service/businesslogic/AdvertisementSelectionLogic.java:98-113 | when some eligible advertisement scores at least every key already in the map, the call returns the last eligible advertisement (in filtered order) with the top score; that score is at least every eligible score and every old key, and the map now holds that advertisement at it, overwriting an equal old key |
| SelectionProperties.UsWinnerReturnedForUk | src/com/amazon/ata/advertising/service/businesslogic/AdvertisementSelectionLogic.java:98-113 | one instance serving "US" (an ad at rate 0.9) and then "UK" (an ad at rate 0.5) returns the "US" advertisement for both calls |
| SelectionProperties.RepeatedCallIsStable | src/com/amazon/ata/advertising/service/businesslogic/AdvertisementSelectionLogic.java:98-113 | repeating a call with identical input gives the same outcome and leaves the instance as the first call left it |

## Left out

- Logging (`LOG.warn`, `printStackTrace`) is left out because it has no effect on the result.
- The `Random` field, `setRandom` and the commented-out random-selection and executor code are
  left out because none of it runs.
- The `Callable` interface and concurrency around `SelectionLogicCallable` are left out. So is
  any interleaving of concurrent calls on the shared map. Only the sequential effect of the
  persistent map is modelled.
- `SelectionLogicCallable.Call` takes the group's predicates as a parameter. The source instead
  builds a fresh `TargetingGroup` inside `call()`, and that class's defaults are not part of
  this model.
- The internals of the DAOs, `TargetingEvaluator` and the predicates are not part of this
  model. They are total deterministic functions here.
- A DAO that throws is not modelled.
- A null list from `targetingGroupDao.get` is not modelled.
- A null element in the content list is not modelled. Its `getContentId()` in the filter
  (AdvertisementSelectionLogic.java:80) would throw NullPointerException.
- A null `customerId` is modelled as a plain string. The code only passes it into the request
  context.
- Click-through rates are `real`. IEEE-754 `double` corner cases (NaN, -0.0) are left out.
  The map itself starts empty. Each advertisement's running rate starts at +0.0 and changes
  only on a strictly larger rate, so every key put is at least +0.0 and never NaN.
- `SelectionProperties.FreshInstanceSelectsBestEligible` states "last among ties" in the order
  of the filtered list rather than the content list. `AdvertisementSelectionLogic.FilterKeepsEligibleInOrder`
  separately states that the filtered list is the order-preserving subsequence of the eligible
  content.
