/**
 * `ElementsCheck`: a check object registered with the pageable checker. Each perform bumps
 * the check's counter (which also serves as the page number in its messages), evaluates the
 * provided elements and keeps the result's error, if any, in the check's collected errors.
 * The predicate and the assertion variants are the two strategies of one class.
 */
module ElementsChecks {
  import opened Wrappers
  import opened Throwables
  import opened ElementsCheckResults
  import PredicateCheckThatEachElement
  import AssertionCheckThatEachElement

  /** How a check judges the provided elements. */
  datatype Strategy<-E> =
    | EachSatisfies(condition: E -> bool)
    | EachPassesAssertion(assertion: (E, string) -> Option<Throwable>)

  /** The counter and the collected errors of a check. */
  datatype CheckState = CheckState(checkNumber: int, collectedErrors: seq<Throwable>)

  class ElementsCheck<T, E> {
    const passedElementDescription: string
    /** The provider of the checked elements; a provider that throws is a `Failure`. */
    const elementsProvider: T -> Result<seq<E>, Throwable>
    const strategy: Strategy<E>
    /** `String.valueOf` on elements. */
    const show: E -> string
    var collectedErrors: seq<Throwable>
    var checkNumber: int

    /** The constructor of `PredicateCheckThatEachElement`. */
    constructor PredicateCheck(continueConstructorName: string, elementsProvider: T -> Result<seq<E>, Throwable>,
                               condition: E -> bool, show: E -> string)
      ensures passedElementDescription == continueConstructorName && this.elementsProvider == elementsProvider
      ensures strategy == EachSatisfies(condition) && this.show == show
      ensures collectedErrors == [] && checkNumber == 0
    {
      passedElementDescription := continueConstructorName;
      this.elementsProvider := elementsProvider;
      strategy := EachSatisfies(condition);
      this.show := show;
      collectedErrors := [];
      checkNumber := 0;
    }

    /** The constructor of `AssertionCheckThatEachElement`. */
    constructor AssertionCheck(continueConstructorName: string, elementsProvider: T -> Result<seq<E>, Throwable>,
                               assertion: (E, string) -> Option<Throwable>, show: E -> string)
      ensures passedElementDescription == continueConstructorName && this.elementsProvider == elementsProvider
      ensures strategy == EachPassesAssertion(assertion) && this.show == show
      ensures collectedErrors == [] && checkNumber == 0
    {
      passedElementDescription := continueConstructorName;
      this.elementsProvider := elementsProvider;
      strategy := EachPassesAssertion(assertion);
      this.show := show;
      collectedErrors := [];
      checkNumber := 0;
    }

    /** What `performWithoutNumberIncrement(target)` returns or throws when the counter stands at `number`. */
    function Evaluate(target: T, number: int): Result<ElementsCheckResult, Throwable>
    {
      match elementsProvider(target)
      case Failure(t) => Failure(t)
      case Success(elements) =>
        match strategy
        case EachSatisfies(condition) =>
          Success(PredicateCheckThatEachElement.PredicateResult(passedElementDescription, elements, condition, show, number))
        case EachPassesAssertion(assertion) =>
          AssertionCheckThatEachElement.AssertionResult(passedElementDescription, elements, assertion, show, number)
    }

    /** The verdict of a perform on `target`: whether it failed, or what it threw. */
    function Outcome(target: T): Result<bool, Throwable>
    {
      match elementsProvider(target)
      case Failure(t) => Failure(t)
      case Success(elements) =>
        match strategy
        case EachSatisfies(condition) =>
          Success(|PredicateCheckThatEachElement.FailedElementList(elements, condition)| > 0)
        case EachPassesAssertion(assertion) =>
          var c := CatchAssertionErrors(elements, AssertionCheckThatEachElement.Attempt(assertion, show, passedElementDescription));
          if c.crash.Some? then Failure(c.crash.value) else Success(|c.failures| > 0)
    }

    /**
     * A perform throws what the provider throws, or, for the assertion variant, the first
     * throwable that is not an `AssertionError`; otherwise it fails exactly when some
     * provided element fails the predicate or makes the assertion throw.
     */
    lemma OutcomeMeansSomeElementFailed(target: T)
      ensures elementsProvider(target).Failure? ==> Outcome(target) == Failure(elementsProvider(target).error)
      ensures elementsProvider(target).Success? && strategy.EachSatisfies? ==>
        var elements := elementsProvider(target).value;
        Outcome(target) == Success(exists i :: 0 <= i < |elements| && !strategy.condition(elements[i]))
      ensures elementsProvider(target).Success? && strategy.EachPassesAssertion? ==>
        var elements := elementsProvider(target).value;
        var attempt := AssertionCheckThatEachElement.Attempt(strategy.assertion, show, passedElementDescription);
        && (Outcome(target).Failure? <==> exists i :: 0 <= i < |elements| && Crashes(attempt, elements[i]))
        && (Outcome(target).Success? ==> (Outcome(target).value <==> exists i :: 0 <= i < |elements| && attempt(elements[i]).Some?))
    {
      EvaluateAgreesWithOutcome(target, 0);
    }

    /**
     * The counter only numbers the messages: whatever it stands at, a perform throws the same
     * throwable or returns a result with the same verdict, and the verdict is the one `Outcome` gives.
     */
    lemma EvaluateAgreesWithOutcome(target: T, number: int)
      ensures Evaluate(target, number).Success? <==> Outcome(target).Success?
      ensures Evaluate(target, number).Failure? ==> Evaluate(target, number).error == Outcome(target).error
      ensures Evaluate(target, number).Success? ==> Evaluate(target, number).value.isFailed == Outcome(target).value
    {
    }

    /** `perform`: the counter goes up by one, then the elements are evaluated under the new number. */
    method Perform(target: T) returns (r: Result<ElementsCheckResult, Throwable>)
      modifies this
      ensures checkNumber == old(checkNumber) + 1
      ensures r == Evaluate(target, checkNumber)
      ensures r.Success? ==> r.value.pageNumber == checkNumber > old(checkNumber)
      ensures collectedErrors == old(collectedErrors) + ErrorOf(r)
      ensures |collectedErrors| == |old(collectedErrors)| + if r.Success? && r.value.isFailed then 1 else 0
      ensures CheckState(checkNumber, collectedErrors) == After(ErrorAt, CheckState(old(checkNumber), old(collectedErrors)), target)
    {
      checkNumber := checkNumber + 1;
      r := PerformWithoutNumberIncrement(target);
    }

    /** `performWithoutNumberIncrement`; the assertion variant runs the try/catch loop over the elements. */
    method PerformWithoutNumberIncrement(target: T) returns (r: Result<ElementsCheckResult, Throwable>)
      modifies this
      ensures checkNumber == old(checkNumber)
      ensures r == Evaluate(target, checkNumber)
      ensures collectedErrors == old(collectedErrors) + ErrorOf(r)
    {
      var provided := elementsProvider(target);
      if provided.Failure? {
        return Failure(provided.error);
      }
      var elements := provided.value;
      var result: ElementsCheckResult;
      match strategy {
        case EachSatisfies(condition) =>
          result := PredicateCheckThatEachElement.PredicateResult(passedElementDescription, elements, condition, show, checkNumber);
        case EachPassesAssertion(assertion) =>
          var attempt := AssertionCheckThatEachElement.Attempt(assertion, show, passedElementDescription);
          var caught := CatchEach(elements, attempt);
          if caught.crash.Some? {
            return Failure(caught.crash.value);
          }
          result := FromErrorList(passedElementDescription, checkNumber, caught.Errors(), |elements|);
      }
      if result.error.Some? {
        collectedErrors := collectedErrors + [result.error.value];
      }
      r := Success(result);
    }

    /** What a perform numbered `number` on `target` adds to the collected errors. */
    function ErrorAt(target: T, number: int): seq<Throwable>
    {
      ErrorOf(Evaluate(target, number))
    }

    /** A perform adds an error exactly when it fails, and never more than one. */
    lemma ErrorAtMeansFailed(target: T, number: int)
      ensures |ErrorAt(target, number)| == if Outcome(target) == Success(true) then 1 else 0
    {
      EvaluateAgreesWithOutcome(target, number);
    }

    /** Whether a perform on `target` fails. */
    predicate Fails(target: T)
    {
      Outcome(target) == Success(true)
    }

    /** Performs add no error exactly when none of them fails. */
    lemma ErrorsOverNoneIffNoFailure(number: int, targets: seq<T>)
      ensures ErrorsOver(ErrorAt, number, targets) == [] <==> forall i :: 0 <= i < |targets| ==> Outcome(targets[i]) != Success(true)
    {
      ErrorAtCountsFailures();
      ErrorsOverEmptyIff(ErrorAt, Fails, number, targets);
    }

    /** Performs none of which fails but perhaps the last add at most one error. */
    lemma ErrorsOverAtMostOne(number: int, targets: seq<T>)
      requires forall i :: 0 <= i < |targets| - 1 ==> Outcome(targets[i]) == Success(false)
      ensures |ErrorsOver(ErrorAt, number, targets)| <= 1
    {
      ErrorAtCountsFailures();
      ErrorsOverOnlyLast(ErrorAt, Fails, number, targets);
    }

    /** Every perform adds one error when it fails and none otherwise. */
    lemma ErrorAtCountsFailures()
      ensures forall t, n :: |ErrorAt(t, n)| == if Fails(t) then 1 else 0
    {
      forall t, n
        ensures |ErrorAt(t, n)| == if Fails(t) then 1 else 0
      {
        ErrorAtMeansFailed(t, n);
      }
    }

    /** `getCollectedErrors`. */
    method GetCollectedErrors() returns (errors: seq<Throwable>)
      ensures errors == collectedErrors
    {
      errors := collectedErrors;
    }
  }

  /** The error a perform adds to the collected errors: the result's error, if it returned one. */
  function ErrorOf(r: Result<ElementsCheckResult, Throwable>): seq<Throwable>
  {
    if r.Success? && r.value.error.Some? then [r.value.error.value] else []
  }

  /**
   * The state of a check after one more perform on `target`, where `errorAt(t, n)` is what a
   * perform numbered `n` on `t` adds: the counter goes up, then the error, if any, is kept.
   */
  function After<T>(errorAt: (T, int) -> seq<Throwable>, s: CheckState, target: T): CheckState
  {
    CheckState(s.checkNumber + 1, s.collectedErrors + errorAt(target, s.checkNumber + 1))
  }

  /**
   * The errors that performs on the states `targets`, one after another, add to the
   * collected errors when the counter stood at `number` before the first, in order.
   */
  function ErrorsOver<T>(errorAt: (T, int) -> seq<Throwable>, number: int, targets: seq<T>): seq<Throwable>
    decreases |targets|
  {
    if |targets| == 0 then []
    else
      var n := |targets| - 1;
      ErrorsOver(errorAt, number, targets[..n]) + errorAt(targets[n], number + |targets|)
  }

  lemma ErrorsOverSnoc<T>(errorAt: (T, int) -> seq<Throwable>, number: int, targets: seq<T>, target: T)
    ensures ErrorsOver(errorAt, number, targets + [target]) == ErrorsOver(errorAt, number, targets) + errorAt(target, number + |targets| + 1)
  {
    assert (targets + [target])[..|targets|] == targets;
  }

  /**
   * Where each perform adds one error when it fails and none otherwise, performs add no error
   * exactly when none of them fails.
   */
  lemma {:induction false} ErrorsOverEmptyIff<T>(errorAt: (T, int) -> seq<Throwable>, fails: T -> bool, number: int, targets: seq<T>)
    requires forall t, n :: |errorAt(t, n)| == if fails(t) then 1 else 0
    ensures ErrorsOver(errorAt, number, targets) == [] <==> forall i :: 0 <= i < |targets| ==> !fails(targets[i])
    decreases |targets|
  {
    if |targets| > 0 {
      var n := |targets| - 1;
      var init := targets[..n];
      ErrorsOverEmptyIff(errorAt, fails, number, init);
      assert |ErrorsOver(errorAt, number, targets)| == |ErrorsOver(errorAt, number, init)| + |errorAt(targets[n], number + |targets|)|;
      assert forall i :: 0 <= i < n ==> init[i] == targets[i];
    }
  }

  /** Under the same counting, performs none of which fails but perhaps the last add at most one error. */
  lemma ErrorsOverOnlyLast<T>(errorAt: (T, int) -> seq<Throwable>, fails: T -> bool, number: int, targets: seq<T>)
    requires forall t, n :: |errorAt(t, n)| == if fails(t) then 1 else 0
    requires forall i :: 0 <= i < |targets| - 1 ==> !fails(targets[i])
    ensures |ErrorsOver(errorAt, number, targets)| <= 1
  {
    if |targets| > 0 {
      var n := |targets| - 1;
      ErrorsOverEmptyIff(errorAt, fails, number, targets[..n]);
      assert |ErrorsOver(errorAt, number, targets)| == |ErrorsOver(errorAt, number, targets[..n])| + |errorAt(targets[n], number + |targets|)|;
    }
  }

  /** One more perform extends the performs made since the state `s`. */
  lemma AfterExtends<T>(errorAt: (T, int) -> seq<Throwable>, s: CheckState, targets: seq<T>, target: T)
    ensures After(errorAt, CheckState(s.checkNumber + |targets|, s.collectedErrors + ErrorsOver(errorAt, s.checkNumber, targets)), target) ==
      CheckState(s.checkNumber + |targets + [target]|, s.collectedErrors + ErrorsOver(errorAt, s.checkNumber, targets + [target]))
  {
    ErrorsOverSnoc(errorAt, s.checkNumber, targets, target);
  }
}
