/**
 * `AssertionCheckThatEachElement`: a check that runs an assertion callback on every element
 * the provider yields, catching the `AssertionError` each failing element raises.
 */
module AssertionCheckThatEachElement {
  import opened Wrappers
  import opened Filtering
  import opened Throwables
  import opened ElementsCheckResults

  /** The message handed to the assertion for element `el`. */
  function ElementMessage<E>(el: E, show: E -> string, passedElementDescription: string): string
  {
    "Элемент \"" + show(el) + "\" не " + passedElementDescription
  }

  /** What `assertion.accept(el, message)` throws for each element, if anything. */
  function Attempt<E>(assertion: (E, string) -> Option<Throwable>, show: E -> string, passedElementDescription: string): E -> Option<Throwable>
  {
    el => assertion(el, ElementMessage(el, show, passedElementDescription))
  }

  /**
   * What one perform returns for the provided `elements`: the first throwable that is not an
   * `AssertionError` propagates; otherwise the caught errors become the result's error list.
   */
  function AssertionResult<E>(passedElementDescription: string, elements: seq<E>, assertion: (E, string) -> Option<Throwable>,
                              show: E -> string, checkNumber: int): (r: Result<ElementsCheckResult, Throwable>)
    ensures var attempt := Attempt(assertion, show, passedElementDescription);
      r.Failure? <==> exists i :: 0 <= i < |elements| && Crashes(attempt, elements[i])
    ensures r.Failure? ==> !r.error.IsAssertionError()
    ensures r.Success? ==>
      && (r.value.isFailed <==> exists i :: 0 <= i < |elements| && Attempt(assertion, show, passedElementDescription)(elements[i]).Some?)
      && (r.value.isFailed <==> r.value.error.Some?)
      && 0 <= r.value.failedElementCount <= r.value.checkedElementCount == |elements|
      && r.value.pageNumber == checkNumber && r.value.descriptionPart == passedElementDescription
  {
    var attempt := Attempt(assertion, show, passedElementDescription);
    var c := CatchAssertionErrors(elements, attempt);
    CatchAssertionErrorsSpec(elements, attempt);
    CrashIsNoAssertionError(elements, attempt);
    if c.crash.Some? then Failure(c.crash.value)
    else
      FilterNonEmpty(elements, Throws(attempt));
      Success(FromErrorList(passedElementDescription, checkNumber, c.Errors(), |elements|))
  }

  /** The loop propagates only what `catch (AssertionError e)` does not catch. */
  lemma {:induction false} CrashIsNoAssertionError<E>(elements: seq<E>, attempt: E -> Option<Throwable>)
    ensures var c := CatchAssertionErrors(elements, attempt);
      c.crash.Some? ==> !c.crash.value.IsAssertionError()
    decreases |elements|
  {
    if |elements| > 0 {
      CrashIsNoAssertionError(elements[..|elements| - 1], attempt);
    }
  }

  /** The errors thrown by elements that are each known to throw, in order. */
  function ErrorsThrown<E>(xs: seq<E>, attempt: E -> Option<Throwable>): seq<Throwable>
    requires forall k :: 0 <= k < |xs| ==> attempt(xs[k]).Some?
  {
    seq(|xs|, k requires 0 <= k < |xs| => attempt(xs[k]).value)
  }

  /**
   * A result that is returned counts the elements whose assertion failed, and its error
   * reports, in encounter order, every failure those elements raised.
   */
  lemma AssertionResultKeepsEveryError<E>(passedElementDescription: string, elements: seq<E>, assertion: (E, string) -> Option<Throwable>,
                                          show: E -> string, checkNumber: int)
    ensures var attempt := Attempt(assertion, show, passedElementDescription);
      var r := AssertionResult(passedElementDescription, elements, assertion, show, checkNumber);
      var failing := Filter(elements, Throws(attempt));
      r.Success? ==>
        && r.value.failedElementCount == |failing|
        && FailuresOf(r.value.error) == FailuresOfAll(ErrorsThrown(failing, attempt))
  {
    var attempt := Attempt(assertion, show, passedElementDescription);
    var c := CatchAssertionErrors(elements, attempt);
    CatchAssertionErrorsSpec(elements, attempt);
    if c.crash.None? {
      var failing := Filter(elements, Throws(attempt));
      assert c.FailedElements() == failing;
      assert c.Errors() == ErrorsThrown(failing, attempt) by {
        forall k | 0 <= k < |c.failures|
          ensures c.Errors()[k] == attempt(failing[k]).value
        {
          assert c.failures[k] == (c.FailedElements()[k], c.Errors()[k]);
        }
      }
      ErrorReportsEveryFailure(passedElementDescription, checkNumber, c.Errors(), |elements|);
    }
  }
}
