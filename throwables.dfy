/**
 * The part of Java's throwable hierarchy the engine meets: `AssertionError`, opentest4j's
 * `MultipleFailuresError` (a subclass of `AssertionError` that carries a heading and its
 * parts), any other exception, and a `RuntimeException` built around a cause. Also the two
 * rules shared by all checks: the collapsing of a page's errors into one, and the loop that
 * catches only `AssertionError` while trying each element.
 */
module Throwables {
  import opened Wrappers
  import opened Filtering

  datatype Throwable =
    | AssertionError(message: string)
    | MultipleFailuresError(heading: string, parts: seq<Throwable>)
    | RuntimeException(message: string)
    /** `new RuntimeException(cause)`, as a value-returning reporting step rethrows. */
    | WrappedException(cause: Throwable)
    /** What dereferencing a field that is still `null` throws. */
    | NullPointerException
    /** What `List.get(index)` throws on a list of `length` elements when `index` is not below it. */
    | IndexOutOfBoundsException(index: int, length: int)
  {
    /** Whether `catch (AssertionError e)` catches this throwable. */
    predicate IsAssertionError()
    {
      AssertionError? || MultipleFailuresError?
    }
  }

  /** The individual failures a throwable reports: those of its parts for a composite, itself otherwise. */
  function Failures(t: Throwable): seq<Throwable>
    decreases t, 1
  {
    match t
    case MultipleFailuresError(_, parts) => FailuresOfAll(parts)
    case _ => [t]
  }

  function FailuresOfAll(ts: seq<Throwable>): seq<Throwable>
    decreases ts, 0
  {
    if |ts| == 0 then [] else Failures(ts[0]) + FailuresOfAll(ts[1..])
  }

  function FailuresOf(e: Option<Throwable>): seq<Throwable>
  {
    if e.Some? then Failures(e.value) else []
  }

  lemma {:induction false} FailuresOfAllAppend(a: seq<Throwable>, b: seq<Throwable>)
    ensures FailuresOfAll(a + b) == FailuresOfAll(a) + FailuresOfAll(b)
    decreases |a|
  {
    if |a| == 0 {
      assert a + b == b;
    } else {
      assert (a + b)[0] == a[0];
      assert (a + b)[1..] == a[1..] + b;
      FailuresOfAllAppend(a[1..], b);
    }
  }

  /**
   * The collapsing rule of a page's errors: none for no error, the error itself for one,
   * and for more a single composite headed by `heading` that wraps all of them in order.
   * Collapsing loses no failure and keeps their order.
   */
  function Collapse(heading: string, errors: seq<Throwable>): (e: Option<Throwable>)
    ensures e.None? <==> |errors| == 0
    ensures |errors| == 1 ==> e == Some(errors[0])
    ensures |errors| > 1 ==> e == Some(MultipleFailuresError(heading, errors))
    ensures FailuresOf(e) == FailuresOfAll(errors)
  {
    if |errors| == 0 then None
    else if |errors| == 1 then
      assert FailuresOfAll(errors) == Failures(errors[0]) + FailuresOfAll([]);
      Some(errors[0])
    else Some(MultipleFailuresError(heading, errors))
  }

  /**
   * The local state of a loop that tries each element and collects, in order, every element
   * whose attempt threw an `AssertionError` together with what it threw; `crash` is the
   * first other throwable, which ends the loop by propagating.
   */
  datatype Caught<E> = Caught(failures: seq<(E, Throwable)>, crash: Option<Throwable>)
  {
    function FailedElements(): seq<E>
    {
      seq(|failures|, k requires 0 <= k < |failures| => failures[k].0)
    }

    function Errors(): seq<Throwable>
    {
      seq(|failures|, k requires 0 <= k < |failures| => failures[k].1)
    }
  }

  /** What the try/catch loop over `elements` ends with; `attempt(e)` is what trying `e` throws, if anything. */
  function CatchAssertionErrors<E>(elements: seq<E>, attempt: E -> Option<Throwable>): Caught<E>
    decreases |elements|
  {
    if |elements| == 0 then Caught([], None)
    else
      var before := CatchAssertionErrors(elements[..|elements| - 1], attempt);
      var last := elements[|elements| - 1];
      if before.crash.Some? then before
      else match attempt(last)
        case None => before
        case Some(t) =>
          if t.IsAssertionError() then Caught(before.failures + [(last, t)], None)
          else Caught(before.failures, Some(t))
  }

  /** Whether trying `e` throws anything at all. */
  function Throws<E>(attempt: E -> Option<Throwable>): E -> bool
  {
    e => attempt(e).Some?
  }

  /** Whether trying `e` throws something other than an `AssertionError`. */
  predicate Crashes<E>(attempt: E -> Option<Throwable>, e: E)
  {
    attempt(e).Some? && !attempt(e).value.IsAssertionError()
  }

  /**
   * The loop propagates nothing exactly when no element's attempt throws anything but an
   * `AssertionError`, and then it has caught, in encounter order, exactly the elements whose
   * attempt threw, each with the error it threw.
   */
  lemma CatchAssertionErrorsSpec<E>(elements: seq<E>, attempt: E -> Option<Throwable>)
    ensures CatchAssertionErrors(elements, attempt).crash.None? <==>
              forall i :: 0 <= i < |elements| ==> !Crashes(attempt, elements[i])
    ensures CatchAssertionErrors(elements, attempt).crash.None? ==>
              CatchAssertionErrors(elements, attempt).FailedElements() == Filter(elements, Throws(attempt))
    ensures forall k :: 0 <= k < |CatchAssertionErrors(elements, attempt).failures| ==>
              var (e, t) := CatchAssertionErrors(elements, attempt).failures[k];
              attempt(e) == Some(t) && t.IsAssertionError()
  {
    CrashExactlyOnNonAssertion(elements, attempt);
    CaughtInEncounterOrder(elements, attempt);
    CaughtOnlyAssertionErrors(elements, attempt);
  }

  /** The loop propagates something exactly when some element's attempt throws other than an `AssertionError`. */
  lemma {:induction false} CrashExactlyOnNonAssertion<E>(elements: seq<E>, attempt: E -> Option<Throwable>)
    ensures CatchAssertionErrors(elements, attempt).crash.None? <==>
              forall i :: 0 <= i < |elements| ==> !Crashes(attempt, elements[i])
    decreases |elements|
  {
    if |elements| > 0 {
      var init := elements[..|elements| - 1];
      CrashExactlyOnNonAssertion(init, attempt);
      assert forall i :: 0 <= i < |init| ==> init[i] == elements[i];
    }
  }

  /** A loop that propagates nothing has caught the elements whose attempt threw, in encounter order. */
  lemma {:induction false} CaughtInEncounterOrder<E>(elements: seq<E>, attempt: E -> Option<Throwable>)
    ensures CatchAssertionErrors(elements, attempt).crash.None? ==>
              CatchAssertionErrors(elements, attempt).FailedElements() == Filter(elements, Throws(attempt))
    decreases |elements|
  {
    if |elements| > 0 {
      var init := elements[..|elements| - 1];
      var last := elements[|elements| - 1];
      CaughtInEncounterOrder(init, attempt);
      var before := CatchAssertionErrors(init, attempt);
      var c := CatchAssertionErrors(elements, attempt);
      assert elements == init + [last];
      FilterAppend(init, [last], Throws(attempt));
      if c.crash.None? && attempt(last).Some? {
        assert c.failures == before.failures + [(last, attempt(last).value)];
        FailedElementsSnoc(before.failures, (last, attempt(last).value));
      }
    }
  }

  lemma FailedElementsSnoc<E>(failures: seq<(E, Throwable)>, x: (E, Throwable))
    ensures Caught(failures + [x], None).FailedElements() == Caught(failures, None).FailedElements() + [x.0]
  {
  }

  lemma ErrorsSnoc<E>(failures: seq<(E, Throwable)>, x: (E, Throwable))
    ensures Caught(failures + [x], None).Errors() == Caught(failures, None).Errors() + [x.1]
  {
  }

  /** Every caught element is caught with the `AssertionError` its attempt threw. */
  lemma {:induction false} CaughtOnlyAssertionErrors<E>(elements: seq<E>, attempt: E -> Option<Throwable>)
    ensures forall k :: 0 <= k < |CatchAssertionErrors(elements, attempt).failures| ==>
              var (e, t) := CatchAssertionErrors(elements, attempt).failures[k];
              attempt(e) == Some(t) && t.IsAssertionError()
    decreases |elements|
  {
    if |elements| > 0 {
      CaughtOnlyAssertionErrors(elements[..|elements| - 1], attempt);
    }
  }

  /** Once an element's attempt has crashed the loop, later elements change nothing. */
  lemma {:induction false} CrashPersists<E>(elements: seq<E>, attempt: E -> Option<Throwable>, n: nat)
    requires n <= |elements|
    requires CatchAssertionErrors(elements[..n], attempt).crash.Some?
    ensures CatchAssertionErrors(elements, attempt) == CatchAssertionErrors(elements[..n], attempt)
    decreases |elements| - n
  {
    if n < |elements| {
      var init := elements[..|elements| - 1];
      assert init[..n] == elements[..n];
      CrashPersists(init, attempt, n);
    } else {
      assert elements[..n] == elements;
    }
  }

  /** One more element: the loop that has not yet propagated tries `elements[i]`. */
  lemma CatchStep<E>(elements: seq<E>, attempt: E -> Option<Throwable>, i: nat)
    requires i < |elements|
    requires CatchAssertionErrors(elements[..i], attempt).crash.None?
    ensures var before := CatchAssertionErrors(elements[..i], attempt);
      CatchAssertionErrors(elements[..i + 1], attempt) ==
        match attempt(elements[i])
        case None => before
        case Some(t) =>
          if t.IsAssertionError() then Caught(before.failures + [(elements[i], t)], None)
          else Caught(before.failures, Some(t))
  {
    assert elements[..i + 1][..i] == elements[..i];
  }

  /** The try/catch loop itself, element by element. */
  method CatchEach<E>(elements: seq<E>, attempt: E -> Option<Throwable>) returns (c: Caught<E>)
    ensures c == CatchAssertionErrors(elements, attempt)
  {
    var failures: seq<(E, Throwable)> := [];
    var i := 0;
    while i < |elements|
      invariant 0 <= i <= |elements|
      invariant CatchAssertionErrors(elements[..i], attempt) == Caught(failures, None)
    {
      CatchStep(elements, attempt, i);
      match attempt(elements[i]) {
        case None =>
        case Some(t) =>
          if t.IsAssertionError() {
            failures := failures + [(elements[i], t)];
          } else {
            CrashPersists(elements, attempt, i + 1);
            return Caught(failures, Some(t));
          }
      }
      i := i + 1;
    }
    assert elements[..i] == elements;
    return Caught(failures, None);
  }
}
