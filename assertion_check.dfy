/**
 * `AssertionCheck`: the oldest assertion check. Its `forEach` callback sets the `failed`
 * flag on each caught `AssertionError` but nothing in `perform` clears it, so the flag keeps
 * a verdict from an earlier page; a failed perform adds one composite of this page's errors.
 */
module AssertionChecks {
  import opened Wrappers
  import opened Throwables
  import opened StandardChecks

  class AssertionCheck<T, E> {
    var multipleFailuresErrorList: seq<Throwable>
    /** The provider of the checked elements; a provider that throws is a `Failure`. */
    const getElements: T -> Result<seq<E>, Throwable>
    /** What `condition.accept(el)` throws, if anything. */
    const condition: E -> Option<Throwable>
    /** `String.valueOf` on elements. */
    const show: E -> string
    /** `null` until `setDescription` is called. */
    var checkDescr: Option<string>
    var failed: bool
    var checkedElementCount: int
    /** `null` until the first perform. */
    var failedElementList: Option<seq<E>>

    constructor(getElements: T -> Result<seq<E>, Throwable>, condition: E -> Option<Throwable>, show: E -> string)
      ensures this.getElements == getElements && this.condition == condition && this.show == show
      ensures multipleFailuresErrorList == [] && checkDescr == None && !failed && checkedElementCount == 0
      ensures failedElementList == None
    {
      this.condition := condition;
      this.getElements := getElements;
      this.show := show;
      multipleFailuresErrorList := [];
      checkDescr := None;
      failed := false;
      checkedElementCount := 0;
      failedElementList := None;
    }

    /** `toString(currentPageNumber)`, worded as `StandardCheck`'s. */
    function ToString(currentPageNumber: int): Result<string, Throwable>
      reads this
    {
      Summary(failed, failedElementList, checkedElementCount, checkDescr, show, currentPageNumber)
    }

    /**
     * The `forEach` callback over the elements: each caught `AssertionError` sets the flag and
     * appends the element and the error; any other throwable leaves the loop where it stands.
     */
    method ForEachElement(elementCollection: seq<E>) returns (errorList: seq<Throwable>, crash: Option<Throwable>)
      requires failedElementList == Some([])
      modifies this`failed, this`failedElementList
      ensures var c := CatchAssertionErrors(elementCollection, condition);
        && failedElementList == Some(c.FailedElements())
        && errorList == c.Errors()
        && crash == c.crash
        && failed == (old(failed) || |c.failures| > 0)
    {
      errorList := [];
      ghost var caught: seq<(E, Throwable)> := [];
      assert Caught(caught, None).FailedElements() == [];
      var i := 0;
      while i < |elementCollection|
        invariant 0 <= i <= |elementCollection|
        invariant CatchAssertionErrors(elementCollection[..i], condition) == Caught(caught, None)
        invariant failedElementList == Some(Caught(caught, None).FailedElements())
        invariant errorList == Caught(caught, None).Errors()
        invariant failed == (old(failed) || |caught| > 0)
      {
        var el := elementCollection[i];
        CatchStep(elementCollection, condition, i);
        match condition(el) {
          case None =>
          case Some(error) =>
            if error.IsAssertionError() {
              FailedElementsSnoc(caught, (el, error));
              ErrorsSnoc(caught, (el, error));
              caught := caught + [(el, error)];
              failed := true;
              failedElementList := Some(failedElementList.value + [el]);
              errorList := errorList + [error];
            } else {
              CrashPersists(elementCollection, condition, i + 1);
              return errorList, Some(error);
            }
        }
        i := i + 1;
      }
      assert elementCollection[..i] == elementCollection;
      crash := None;
    }

    /**
     * `perform`: the failing elements are this page's; the flag only ever turns on; when it is
     * on, exactly one composite of this page's errors headed by the summary is added, except
     * when the flag is left over from an earlier page and no element failed now, where the
     * summary's read of the first failing element throws.
     */
    method Perform(pageNumber: int, target: T) returns (o: Outcome<Throwable>)
      modifies this`checkedElementCount, this`failedElementList, this`failed, this`multipleFailuresErrorList
      ensures getElements(target).Failure? ==> o == Fail(getElements(target).error) && unchanged(this)
      ensures old(failed) ==> failed
      ensures getElements(target).Success? ==>
        var elements := getElements(target).value;
        var c := CatchAssertionErrors(elements, condition);
        && checkedElementCount == |elements|
        && failedElementList == Some(c.FailedElements())
        && failed == (old(failed) || |c.failures| > 0)
        && (c.crash.Some? ==> o == Fail(c.crash.value) && multipleFailuresErrorList == old(multipleFailuresErrorList))
        && (c.crash.None? && !failed ==> o == Pass && multipleFailuresErrorList == old(multipleFailuresErrorList))
        && (c.crash.None? && |c.failures| > 0 ==>
              && o == Pass && ToString(pageNumber).Success?
              && multipleFailuresErrorList == old(multipleFailuresErrorList) + [MultipleFailuresError(ToString(pageNumber).value, c.Errors())])
        && (c.crash.None? && failed && |c.failures| == 0 ==>
              o == Fail(IndexOutOfBoundsException(0, 0)) && multipleFailuresErrorList == old(multipleFailuresErrorList))
    {
      var provided := getElements(target);
      if provided.Failure? {
        return Fail(provided.error);
      }
      var elementCollection := provided.value;
      checkedElementCount := |elementCollection|;
      failedElementList := Some([]);
      var errorList, crash := ForEachElement(elementCollection);
      if crash.Some? {
        return Fail(crash.value);
      }
      if failed {
        var summary := ToString(pageNumber);
        if summary.Failure? {
          return Fail(summary.error);
        }
        multipleFailuresErrorList := multipleFailuresErrorList + [MultipleFailuresError(summary.value, errorList)];
      }
      o := Pass;
    }

    /** `getErrorList`. */
    method GetErrorList() returns (errors: seq<Throwable>)
      ensures errors == multipleFailuresErrorList
    {
      errors := multipleFailuresErrorList;
    }

    /** `isFailed`. */
    method IsFailed() returns (isFailed: bool)
      ensures isFailed == failed
    {
      isFailed := failed;
    }

    /** `setFailed`: only the flag changes; it is the one way to clear it. */
    method SetFailed(isFailed: bool)
      modifies this`failed
      ensures failed == isFailed
    {
      failed := isFailed;
    }

    /** `setDescription`: only the description changes. */
    method SetDescription(description: string)
      modifies this`checkDescr
      ensures checkDescr == Some(description)
    {
      checkDescr := Some(description);
    }
  }
}
