/**
 * `StandardCheck`: the oldest predicate check. It keeps the last perform's verdict in a
 * mutable `failed` flag that callers may also overwrite, and each failing perform adds one
 * error naming the first failing element; `toString(int)` is shared with `AssertionCheck`.
 */
module StandardChecks {
  import opened Wrappers
  import opened Filtering
  import opened Throwables
  import opened Decimal
  import PredicateCheckThatEachElement

  /**
   * `toString(currentPageNumber)` on a check's state: a failed check names how many elements
   * failed and the first of them, which throws while the failing elements are still `null`
   * or empty; a passed check names the checked count.
   */
  function Summary<E>(failed: bool, failedElementList: Option<seq<E>>, checkedElementCount: int,
                      checkDescr: Option<string>, show: E -> string, currentPageNumber: int): (r: Result<string, Throwable>)
    ensures r.Failure? <==> failed && (failedElementList.None? || |failedElementList.value| == 0)
  {
    if failed then
      match failedElementList
      case None => Failure(NullPointerException)
      case Some(list) =>
        if |list| == 0 then Failure(IndexOutOfBoundsException(0, 0))
        else
          Success("Стр. " + IntToString(currentPageNumber) + ". Элемент (всего таких: " + IntToString(|list|) + ") \""
                  + show(list[0]) + "\" не " + NullableString(checkDescr))
    else
      Success("Стр. " + IntToString(currentPageNumber) + ". Каждый элемент (" + IntToString(checkedElementCount) + "шт.)"
              + NullableString(checkDescr))
  }

  /**
   * After a perform that found failing elements, the summary counts them and names the
   * first element, in encounter order, that fails the predicate.
   */
  lemma {:induction false} FailedSummaryNamesFirstFailingElement<E>(elements: seq<E>, condition: E -> bool,
                                                                    checkDescr: Option<string>, show: E -> string,
                                                                    currentPageNumber: int, i: nat)
    requires i < |elements| && !condition(elements[i])
    requires forall j :: 0 <= j < i ==> condition(elements[j])
    ensures var failedElementList := PredicateCheckThatEachElement.FailedElementList(elements, condition);
      Summary(true, Some(failedElementList), |elements|, checkDescr, show, currentPageNumber)
        == Success("Стр. " + IntToString(currentPageNumber) + ". Элемент (всего таких: " + IntToString(|failedElementList|)
                   + ") \"" + show(elements[i]) + "\" не " + NullableString(checkDescr))
  {
    var keep := Negate(condition);
    var idx := KeptIndices(elements, keep);
    FilterSelectsInOrder(elements, keep);
    KeptIndicesIncrease(elements, keep);
    KeptIndicesAreTheKeptPositions(elements, keep);
    assert i in idx;
    var k :| 0 <= k < |idx| && idx[k] == i;
    assert idx[0] <= idx[k] == i;
    assert !condition(elements[idx[0]]);
  }

  class StandardCheck<T, E> {
    /** `null` until `setDescription` is called. */
    var checkDescr: Option<string>
    var failed: bool
    var checkedElementCount: int
    var errorList: seq<Throwable>
    /** `null` until the first perform. */
    var failedElementList: Option<seq<E>>
    const condition: E -> bool
    /** The provider of the checked elements; a provider that throws is a `Failure`. */
    const getElements: T -> Result<seq<E>, Throwable>
    /** `String.valueOf` on elements. */
    const show: E -> string

    constructor(getElements: T -> Result<seq<E>, Throwable>, condition: E -> bool, show: E -> string)
      ensures this.getElements == getElements && this.condition == condition && this.show == show
      ensures checkDescr == None && !failed && checkedElementCount == 0 && errorList == [] && failedElementList == None
    {
      this.condition := condition;
      this.getElements := getElements;
      this.show := show;
      checkDescr := None;
      failed := false;
      checkedElementCount := 0;
      errorList := [];
      failedElementList := None;
    }

    /** `toString(currentPageNumber)`. */
    function ToString(currentPageNumber: int): Result<string, Throwable>
      reads this
    {
      Summary(failed, failedElementList, checkedElementCount, checkDescr, show, currentPageNumber)
    }

    /**
     * `perform`: the element state is recomputed from this page alone; the flag becomes this
     * page's verdict, and a failing page adds exactly one error, headed by the summary.
     */
    method Perform(currentPageNumber: int, target: T) returns (o: Outcome<Throwable>)
      modifies this`checkedElementCount, this`failedElementList, this`failed, this`errorList
      ensures getElements(target).Failure? ==> o == Fail(getElements(target).error) && unchanged(this)
      ensures getElements(target).Success? ==>
        var elements := getElements(target).value;
        && o == Pass
        && checkedElementCount == |elements|
        && failedElementList == Some(PredicateCheckThatEachElement.FailedElementList(elements, condition))
        && (failed <==> exists i :: 0 <= i < |elements| && !condition(elements[i]))
        && (failed ==> ToString(currentPageNumber).Success?
                       && errorList == old(errorList) + [AssertionError(ToString(currentPageNumber).value)])
        && (!failed ==> errorList == old(errorList))
    {
      var provided := getElements(target);
      if provided.Failure? {
        return Fail(provided.error);
      }
      var elementCollection := provided.value;
      checkedElementCount := |elementCollection|;
      var list := Filter(elementCollection, Negate(condition));
      FilterNonEmpty(elementCollection, Negate(condition));
      failedElementList := Some(list);
      failed := |list| > 0;
      if failed {
        var summary := ToString(currentPageNumber);
        errorList := errorList + [AssertionError(summary.value)];
      }
      o := Pass;
    }

    /** `getErrorList`. */
    method GetErrorList() returns (errors: seq<Throwable>)
      ensures errors == errorList
    {
      errors := errorList;
    }

    /** `isFailed`. */
    method IsFailed() returns (isFailed: bool)
      ensures isFailed == failed
    {
      isFailed := failed;
    }

    /** `setFailed`: only the flag changes. */
    method SetFailed(isFailed: bool)
      modifies this`failed
      ensures failed == isFailed
    {
      failed := isFailed;
    }

    /** `setDescription`: only the description changes. */
    method SetDescription(description: string)
      modifies this`checkDescr
      ensures checkDescr == Some(description)
    {
      checkDescr := Some(description);
    }
  }
}
