/**
 * `AssertionPageCheck`: the older assertion check. It tries the assertion on each element
 * under the caller-supplied page number, records each failing element beside the
 * `AssertionError` it raised, and collapses those errors into the page's result.
 */
module AssertionPageChecks {
  import opened Wrappers
  import opened Filtering
  import opened Throwables
  import opened Decimal
  import opened PageCheckResults
  import AssertionCheckThatEachElement

  /** The message handed to the assertion for element `el` on page `pageNumber`. */
  function PageElementMessage<E>(pageNumber: int, el: E, show: E -> string, checkDescr: Option<string>): string
  {
    "Стр. " + IntToString(pageNumber) + ". Элемент \"" + show(el) + "\" не " + NullableString(checkDescr)
  }

  /** What `assertion.accept(el, message)` throws for each element on page `pageNumber`, if anything. */
  function PageAttempt<E>(assertion: (E, string) -> Option<Throwable>, show: E -> string, pageNumber: int,
                          checkDescr: Option<string>): E -> Option<Throwable>
  {
    el => assertion(el, PageElementMessage(pageNumber, el, show, checkDescr))
  }

  /**
   * What one perform returns for the provided `elements`: the first throwable that is not an
   * `AssertionError` propagates; otherwise the failing elements and their errors, recorded
   * side by side, make the result, so its failed count and its verdict agree.
   */
  function AssertionPageResult<E>(checkDescr: Option<string>, elements: seq<E>, assertion: (E, string) -> Option<Throwable>,
                                  show: E -> string, pageNumber: int): (r: Result<PageCheckResult<E>, Throwable>)
    ensures var attempt := PageAttempt(assertion, show, pageNumber, checkDescr);
      r.Failure? <==> exists i :: 0 <= i < |elements| && Crashes(attempt, elements[i])
    ensures r.Failure? ==> !r.error.IsAssertionError()
    ensures r.Success? ==>
      && (r.value.isFailed <==> exists i :: 0 <= i < |elements| && PageAttempt(assertion, show, pageNumber, checkDescr)(elements[i]).Some?)
      && (r.value.isFailed <==> |r.value.failedElementList| > 0)
      && (r.value.isFailed <==> r.value.error.Some?)
      && r.value.checkedElementCount == |elements| && r.value.pageNumber == pageNumber && r.value.descriptionPart == checkDescr
  {
    var attempt := PageAttempt(assertion, show, pageNumber, checkDescr);
    var c := CatchAssertionErrors(elements, attempt);
    CatchAssertionErrorsSpec(elements, attempt);
    AssertionCheckThatEachElement.CrashIsNoAssertionError(elements, attempt);
    if c.crash.Some? then Failure(c.crash.value)
    else
      FilterNonEmpty(elements, Throws(attempt));
      Success(FromErrorList(checkDescr, c.Errors(), c.FailedElements(), pageNumber, |elements|))
  }

  /**
   * A result that is returned keeps, in encounter order, exactly the elements whose assertion
   * failed, and its error reports every failure those elements raised, in the same order.
   */
  lemma AssertionPageResultKeepsEveryError<E>(checkDescr: Option<string>, elements: seq<E>, assertion: (E, string) -> Option<Throwable>,
                                              show: E -> string, pageNumber: int)
    ensures var attempt := PageAttempt(assertion, show, pageNumber, checkDescr);
      var r := AssertionPageResult(checkDescr, elements, assertion, show, pageNumber);
      var failing := Filter(elements, Throws(attempt));
      r.Success? ==>
        && r.value.failedElementList == failing
        && FailuresOf(r.value.error) == FailuresOfAll(AssertionCheckThatEachElement.ErrorsThrown(failing, attempt))
  {
    var attempt := PageAttempt(assertion, show, pageNumber, checkDescr);
    var c := CatchAssertionErrors(elements, attempt);
    CatchAssertionErrorsSpec(elements, attempt);
    if c.crash.None? {
      var failing := Filter(elements, Throws(attempt));
      assert c.Errors() == AssertionCheckThatEachElement.ErrorsThrown(failing, attempt) by {
        forall k | 0 <= k < |c.failures|
          ensures c.Errors()[k] == attempt(failing[k]).value
        {
          assert c.failures[k] == (c.FailedElements()[k], c.Errors()[k]);
        }
      }
    }
  }

  /**
   * The try/catch loop of `perform`: it appends to the failing elements and to the errors in
   * lockstep, and stops at the first throwable that is not an `AssertionError`.
   */
  method TryEachElement<E>(elementCollection: seq<E>, assertion: (E, string) -> Option<Throwable>, show: E -> string,
                           pageNumber: int, checkDescr: Option<string>)
    returns (failedElementList: seq<E>, errorList: seq<Throwable>, crash: Option<Throwable>)
    ensures var c := CatchAssertionErrors(elementCollection, PageAttempt(assertion, show, pageNumber, checkDescr));
      failedElementList == c.FailedElements() && errorList == c.Errors() && crash == c.crash
  {
    var attempt := PageAttempt(assertion, show, pageNumber, checkDescr);
    failedElementList, errorList := [], [];
    ghost var caught: seq<(E, Throwable)> := [];
    var i := 0;
    while i < |elementCollection|
      invariant 0 <= i <= |elementCollection|
      invariant CatchAssertionErrors(elementCollection[..i], attempt) == Caught(caught, None)
      invariant failedElementList == Caught(caught, None).FailedElements()
      invariant errorList == Caught(caught, None).Errors()
    {
      var el := elementCollection[i];
      CatchStep(elementCollection, attempt, i);
      var thrown := attempt(el);
      match thrown {
        case None =>
        case Some(error) =>
          if error.IsAssertionError() {
            FailedElementsSnoc(caught, (el, error));
            ErrorsSnoc(caught, (el, error));
            caught := caught + [(el, error)];
            failedElementList := failedElementList + [el];
            errorList := errorList + [error];
          } else {
            CrashPersists(elementCollection, attempt, i + 1);
            return failedElementList, errorList, Some(error);
          }
      }
      i := i + 1;
    }
    assert elementCollection[..i] == elementCollection;
    crash := None;
  }

  class AssertionPageCheck<T, E> {
    var collectedErrors: seq<Throwable>
    /** The provider of the checked elements; a provider that throws is a `Failure`. */
    const elementsProvider: T -> Result<seq<E>, Throwable>
    /** What `assertion.accept(el, message)` throws, if anything. */
    const assertion: (E, string) -> Option<Throwable>
    /** `String.valueOf` on elements. */
    const show: E -> string
    /** `null` until `setDescription` is called. */
    var checkDescr: Option<string>

    constructor(elementsProvider: T -> Result<seq<E>, Throwable>, assertion: (E, string) -> Option<Throwable>, show: E -> string)
      ensures this.elementsProvider == elementsProvider && this.assertion == assertion && this.show == show
      ensures checkDescr == None && collectedErrors == []
    {
      this.assertion := assertion;
      this.elementsProvider := elementsProvider;
      this.show := show;
      collectedErrors := [];
      checkDescr := None;
    }

    /** What `perform(pageNumber, target)` returns or throws under the current description. */
    function Evaluate(pageNumber: int, target: T): Result<PageCheckResult<E>, Throwable>
      reads this
    {
      match elementsProvider(target)
      case Failure(t) => Failure(t)
      case Success(elements) => AssertionPageResult(checkDescr, elements, assertion, show, pageNumber)
    }

    /** `perform`: the collected errors grow by the result's error, if any. */
    method Perform(pageNumber: int, target: T) returns (r: Result<PageCheckResult<E>, Throwable>)
      modifies this`collectedErrors
      ensures r == Evaluate(pageNumber, target)
      ensures collectedErrors == old(collectedErrors) + ErrorOf(r)
    {
      var provided := elementsProvider(target);
      if provided.Failure? {
        return Failure(provided.error);
      }
      var elementCollection := provided.value;
      var failedElementList, errorList, crash := TryEachElement(elementCollection, assertion, show, pageNumber, checkDescr);
      if crash.Some? {
        return Failure(crash.value);
      }
      var pageCheckResult := FromErrorList(checkDescr, errorList, failedElementList, pageNumber, |elementCollection|);
      if pageCheckResult.error.Some? {
        collectedErrors := collectedErrors + [pageCheckResult.error.value];
      }
      r := Success(pageCheckResult);
    }

    /** `getCollectedErrors`. */
    method GetCollectedErrors() returns (errors: seq<Throwable>)
      ensures errors == collectedErrors
    {
      errors := collectedErrors;
    }

    /** `setDescription`: only the description changes. */
    method SetDescription(description: string)
      modifies this`checkDescr
      ensures checkDescr == Some(description)
    {
      checkDescr := Some(description);
    }
  }
}
