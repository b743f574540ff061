/**
 * `PredicatePageCheck`: the older predicate check. It keeps no counter: the caller supplies
 * the page number on every perform. Its description is set separately, after construction.
 */
module PredicatePageChecks {
  import opened Wrappers
  import opened Filtering
  import opened Throwables
  import opened StringsUtils
  import opened PageCheckResults
  import PredicateCheckThatEachElement

  /** What one perform returns for the provided `elements` on page `pageNumber`. */
  function PredicatePageResult<E>(checkDescr: Option<string>, elements: seq<E>, condition: E -> bool,
                                  show: E -> string, pageNumber: int): (r: PageCheckResult<E>)
    ensures r.isFailed <==> exists i :: 0 <= i < |elements| && !condition(elements[i])
    ensures r.error.Some? <==> r.isFailed
    ensures forall k :: 0 <= k < |r.failedElementList| ==> !condition(r.failedElementList[k])
    ensures r.pageNumber == pageNumber && r.checkedElementCount == |elements| && r.descriptionPart == checkDescr
  {
    var failed := PredicateCheckThatEachElement.FailedElementList(elements, condition);
    FilterNonEmpty(elements, Negate(condition));
    FromFailedElements(checkDescr, failed, show, pageNumber, |elements|)
  }

  /**
   * The failing elements the result keeps are exactly those that fail the predicate, each
   * one at the position the provider yielded it, in that order, and its error lists them.
   */
  lemma {:induction false} PredicatePageResultKeepsTheFailingElements<E>(checkDescr: Option<string>, elements: seq<E>,
                                                                         condition: E -> bool, show: E -> string, pageNumber: int)
    ensures var r := PredicatePageResult(checkDescr, elements, condition, show, pageNumber);
      var idx := PredicateCheckThatEachElement.FailingPositions(elements, condition);
      && |r.failedElementList| == |idx|
      && StrictlyIncreasing(idx)
      && (forall i :: 0 <= i < |elements| ==> (i in idx <==> !condition(elements[i])))
      && (forall k :: 0 <= k < |idx| ==> idx[k] < |elements| && r.failedElementList[k] == elements[idx[k]])
      && (r.isFailed ==> r.error == Some(AssertionError(r.ToString() + "\n" + Bracketed(Shown(r.failedElementList, show)))))
  {
    var keep := Negate(condition);
    FilterSelectsInOrder(elements, keep);
    KeptIndicesIncrease(elements, keep);
    KeptIndicesAreTheKeptPositions(elements, keep);
  }

  class PredicatePageCheck<T, E> {
    /** `null` until `setDescription` is called. */
    var checkDescr: Option<string>
    var collectedErrors: seq<Throwable>
    const condition: E -> bool
    /** The provider of the checked elements; a provider that throws is a `Failure`. */
    const elementsProvider: T -> Result<seq<E>, Throwable>
    /** `String.valueOf` on elements. */
    const show: E -> string

    constructor(elementsProvider: T -> Result<seq<E>, Throwable>, passCondition: E -> bool, show: E -> string)
      ensures this.elementsProvider == elementsProvider && condition == passCondition && this.show == show
      ensures checkDescr == None && collectedErrors == []
    {
      this.elementsProvider := elementsProvider;
      condition := passCondition;
      this.show := show;
      checkDescr := None;
      collectedErrors := [];
    }

    /** What `perform(currentPageNumber, target)` returns or throws under the current description. */
    function Evaluate(currentPageNumber: int, target: T): Result<PageCheckResult<E>, Throwable>
      reads this
    {
      match elementsProvider(target)
      case Failure(t) => Failure(t)
      case Success(elements) => Success(PredicatePageResult(checkDescr, elements, condition, show, currentPageNumber))
    }

    /**
     * `perform`: the result is about the page the caller names, and the collected errors grow
     * by one exactly when that page failed.
     */
    method Perform(currentPageNumber: int, target: T) returns (r: Result<PageCheckResult<E>, Throwable>)
      modifies this`collectedErrors
      ensures r == Evaluate(currentPageNumber, target)
      ensures r.Success? ==> r.value.pageNumber == currentPageNumber
      ensures collectedErrors == old(collectedErrors) + ErrorOf(r)
      ensures |collectedErrors| == |old(collectedErrors)| + if r.Success? && r.value.isFailed then 1 else 0
    {
      var provided := elementsProvider(target);
      if provided.Failure? {
        return Failure(provided.error);
      }
      var elementCollection := provided.value;
      var failedElementList := Filter(elementCollection, Negate(condition));
      var pageCheckResult := FromFailedElements(checkDescr, failedElementList, show, currentPageNumber, |elementCollection|);
      if pageCheckResult.error.Some? {
        collectedErrors := collectedErrors + [pageCheckResult.error.value];
      }
      r := Success(pageCheckResult);
    }

    /** `getCollectedErrors`. */
    method GetCollectedErrors() returns (errors: seq<Throwable>)
      ensures errors == collectedErrors
    {
      errors := collectedErrors;
    }

    /** `setDescription`: only the description changes. */
    method SetDescription(description: string)
      modifies this`checkDescr
      ensures checkDescr == Some(description)
    {
      checkDescr := Some(description);
    }
  }
}
