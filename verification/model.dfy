/**
 The entities shared by the advertisement-selection business logic: the tri-state
 result of evaluating targeting predicates, the request context, advertisement
 content, targeting groups, and the generated advertisement handed back to callers.
 */
module AdvertisingModel {

  /** A Java reference that may be null. */
  datatype Option<+T> = None | Some(value: T)

  /** A computation that either returns a value or throws one of the modelled exceptions. */
  datatype Result<+T> = Ok(value: T) | Err(fault: Fault)

  /** The unchecked exceptions the selection logic can let escape to its caller. */
  datatype Fault =
    | NullPointerException     // `isTrue()` called on a result left null
    | NoSuchElementException   // `lastKey()` called on an empty sorted map

  /** `TargetingPredicateResult`: the outcome of evaluating a predicate or a targeting group. */
  datatype TargetingPredicateResult = TRUE | FALSE | INDETERMINATE {
    predicate IsTrue() {
      TRUE?
    }
  }

  /** The customer and marketplace that one selection request is made for. */
  datatype RequestContext = RequestContext(customerId: string, marketplaceId: string)

  /** One candidate advertisement; the rendered payload is opaque to the selection logic. */
  datatype AdvertisementContent = AdvertisementContent(contentId: string, content: string)

  /**
   A set of targeting rules attached to one piece of content, with the click-through
   rate recorded for it. The rules themselves are only ever seen through the
   targeting evaluator, so they are not part of this record.
   */
  datatype TargetingGroup = TargetingGroup(targetingGroupId: string, contentId: string, clickThroughRate: real)

  /** What the selection logic returns: an empty advertisement, or one wrapping the chosen content. */
  datatype GeneratedAdvertisement =
    | EmptyGeneratedAdvertisement
    | GeneratedAdvertisement(content: AdvertisementContent)

  /** `StringUtils.isEmpty`: true of null and of the empty string. */
  predicate IsEmptyString(s: Option<string>) {
    s.None? || s.value == ""
  }

  /** `CollectionUtils.isNotEmpty`: false of null and of the empty list. */
  predicate IsNotEmptyList<T>(xs: Option<seq<T>>) {
    xs.Some? && |xs.value| > 0
  }
}
