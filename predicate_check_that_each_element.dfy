/**
 * `PredicateCheckThatEachElement`: a check that applies a predicate to every element the
 * provider yields and reports the elements that fail it.
 */
module PredicateCheckThatEachElement {
  import opened Wrappers
  import opened Filtering
  import opened Throwables
  import opened StringsUtils
  import opened ElementsCheckResults

  /** The elements that do not satisfy `condition`, in encounter order (`filter(condition.negate())`). */
  function FailedElementList<E>(elements: seq<E>, condition: E -> bool): seq<E>
  {
    Filter(elements, Negate(condition))
  }

  /** The positions of the elements that do not satisfy `condition`. */
  function FailingPositions<E>(elements: seq<E>, condition: E -> bool): seq<nat>
  {
    KeptIndices(elements, Negate(condition))
  }

  /** What one perform returns for the provided `elements`, under check number `checkNumber`. */
  function PredicateResult<E>(passedElementDescription: string, elements: seq<E>, condition: E -> bool,
                              show: E -> string, checkNumber: int): (r: ElementsCheckResult)
    ensures r.isFailed <==> exists i :: 0 <= i < |elements| && !condition(elements[i])
    ensures r.isFailed <==> r.error.Some?
    ensures 0 <= r.failedElementCount <= r.checkedElementCount == |elements|
    ensures r.pageNumber == checkNumber && r.descriptionPart == passedElementDescription
  {
    var failed := FailedElementList(elements, condition);
    FilterNonEmpty(elements, Negate(condition));
    FromFailedElements(passedElementDescription, failed, show, checkNumber, |elements|)
  }

  /**
   * The reported count is the number of elements that fail the predicate, and the error
   * lists exactly those elements, in the order the provider yielded them.
   */
  lemma {:induction false} PredicateResultListsTheFailingElements<E>(passedElementDescription: string, elements: seq<E>,
                                                                     condition: E -> bool, show: E -> string, checkNumber: int)
    ensures var r := PredicateResult(passedElementDescription, elements, condition, show, checkNumber);
      var idx := FailingPositions(elements, condition);
      && r.failedElementCount == |idx|
      && StrictlyIncreasing(idx)
      && (forall i :: 0 <= i < |elements| ==> (i in idx <==> !condition(elements[i])))
      && (forall k :: 0 <= k < |idx| ==> idx[k] < |elements| && FailedElementList(elements, condition)[k] == elements[idx[k]])
      && (r.isFailed ==> r.error == Some(AssertionError(r.ToString() + "\n" + Bracketed(Shown(FailedElementList(elements, condition), show)))))
  {
    var keep := Negate(condition);
    FilterSelectsInOrder(elements, keep);
    KeptIndicesIncrease(elements, keep);
    KeptIndicesAreTheKeptPositions(elements, keep);
  }
}
