# Pageable check engine: a Dafny model

This project models the pageable check engine of a Selenium test project. The engine lives in
`src/main/java/helpers/pageable`, and the model also covers the two string helpers the tests
use with it.

**`PageableChecker`.** The orchestrator. It holds an ordered list of registered checks, a
lazy/eager mode flag, a bound on the number of pages, and a page object (the target) that can
move to its next page. Its `run` works like this:
- it performs the active checks on the current page;
- in lazy mode it drops every check that failed;
- where checks remain, the page counter is below the bound and the target could turn the page,
  it goes on to the next page;
- `assertAll` then gathers every error the checks collected into one `MultipleFailuresError`.

**Newer checks.**
- `ElementsCheck` is the base class. It numbers its performs, one per page, and keeps the
  errors it collected.
- `PredicateCheckThatEachElement` keeps the elements that fail a predicate.
- `AssertionCheckThatEachElement` tries an assertion on each element, catching the
  `AssertionError`s it raises.
- `ElementsCheckResult` is an immutable result. It has a two-shaped summary in the report's
  Russian wording. Its single error is none, the one failure, or a `MultipleFailuresError`
  wrapping every failure.

**Older generation.** These classes are still present in the source:
- `PageCheckResult`, `PredicatePageCheck` and `AssertionPageCheck`, where the caller supplies the
  page number;
- `StandardCheck` and `AssertionCheck`, which keep their verdict in a mutable `failed` flag.

**String helpers.**
- `StringsUtils.collectionToString` formats a list.
- `StringsUtils.stringContainsAnyStringCaseInsensitively` asks whether a string contains any of
  a list of keywords, ignoring case.
- `StringChecker.eachStringContainAnyStringOfEachList` finds the first string that misses every
  keyword of some list.

**How the model is built.**
- Each core Java file is one module.
- Objects whose fields the source updates are classes with `modifies` clauses. Their methods
  are proved against specification functions: `Evaluate`, `Outcome`, `Summary`,
  `CatchAssertionErrors` and `Pages`.
- The run of `PageableChecker` is specified by the pure function `Pages`. From it come:
  - the trace of its pages;
  - the checks performed on each page and their verdicts;
  - the number of `nextPage` calls;
  - the final target;
  - any throwable the run raised.
- The class's loops are proved to follow that trace, with a ghost log of performs and of
  `nextPage` calls.
- The lemmas then state what the trace promises:
  - the page bound;
  - lazy pruning;
  - a failed check is never performed again;
  - eager mode performs every check on every page;
  - registration order is kept.
- The checks' own states (counter and collected errors) are threaded through the same trace.
  Pure functions `PageStates` and `RunStates` give them page by page. The lemmas read them
  back check by check: a check's state after a run depends only on the pages it was
  performed on (`TargetsOf`).
- The loops of one page (`ProcessActive`, `ProcessTurn`) take the checks' verdict and error
  functions as ghost parameters. `DecidesOn` and `AddsErrors` tie those parameters to the
  registered checks one position at a time, so each step of the proof only looks at the check
  it performs.
- Several lemmas about summaries show that the report text can be read back:
  `SummaryDeterminesPageAndVerdict`, `SummaryReadsBack` and `IntToStringInjective`. A summary
  names exactly one page and one verdict, so a failure in the report points to the page where
  it happened.

**Model of the environment.**
- A Java throwable is a value of `Throwables.Throwable`.
- A callback that throws is a function returning `Option<Throwable>` or a `Result`.
- Java's `null` is `Option.None`. Where the source concatenates a possibly-null string, it is
  rendered as `"null"`.
- Behaviours of the code worth noting:
  - The predicate strategies report one `AssertionError` that lists the failing elements. They
    do not collapse per-element errors.
  - A non-`AssertionError` thrown by an assertion callback aborts the perform and the whole run.
  - A page bound of 1 or less still visits one page, because the page loop is a do-while.
  - A crash inside a perform reaches the caller wrapped in a `RuntimeException`
    (`WrappedException` here), because of the value-returning step wrapper in
    `src/main/java/helpers/CustomAllure.java:42-46`.

## Model

| member | source | states |
|---|---|---|
| PageableCheckers.PageableChecker.constructor | src/main/java/helpers/pageable/PageableChecker.java:29-48 | a new checker holds the given target, no checks and no errors, is lazy, and has the default bound of 1000 pages |
| PageableCheckers.PageableChecker.BeLazy | src/main/java/helpers/pageable/PageableChecker.java:59-62 | the mode becomes lazy exactly when the argument is true; the checker itself is returned |
| PageableCheckers.PageableChecker.SetPageCount | src/main/java/helpers/pageable/PageableChecker.java:72-75 | the page bound becomes the argument; the checker itself is returned |
| PageableCheckers.PageableChecker.AddCheck | src/main/java/helpers/pageable/PageableChecker.java:109-112 | the check is appended after the registered ones; the checker itself is returned |
| PageableCheckers.PageableChecker.PerformCheck | src/main/java/helpers/pageable/PageableChecker.java:159-171 | performing the k-th check yields its verdict on the current target, or what the perform threw (`ProcessActive` wraps it as the step does), and logs one perform of check k; that check's counter grows by one and it keeps the error of this perform, if any; with distinct check objects no other check changes |
| PageableCheckers.PageableChecker.ProcessPageCheck | src/main/java/helpers/pageable/PageableChecker.java:155-180 | one page's pass equals `ProcessedPage`: every active check is performed in order; any failure fails the page; in lazy mode exactly the failed checks leave the active list; a throwing check aborts the page; with distinct check objects, a page that throws nothing leaves each active check one perform further on this page and every other check unchanged (`PageStates`) |
| PageableCheckers.PageableChecker.RunWithoutThrowing | src/main/java/helpers/pageable/PageableChecker.java:122-150 | an empty check list throws "Checklist is empty" and changes nothing; otherwise the final target, the performs, the `nextPage` calls and the outcome are those of the run trace `RunSpec`, and, with distinct check objects and no crash, the checks' states are `RunStates` over the trace's pages |
| PageableCheckers.PageableChecker.RunPages | src/main/java/helpers/pageable/PageableChecker.java:130-143 | the do-while loop over pages follows the trace of the whole run, the checks' states included |
| PageableCheckers.PageableChecker.RunFrom | src/main/java/helpers/pageable/PageableChecker.java:131-143 | the passes of the do-while loop, from the first page with every check active, make the whole run: its outcome, final target, performs, `nextPage` calls and the checks' states |
| PageableCheckers.PageableChecker.MidwayAtStart | src/main/java/helpers/pageable/PageableChecker.java:130-131 | before the first pass nothing of the run is done, and what is left is the run from the first page with every check active |
| PageableCheckers.PageableChecker.RunPass | src/main/java/helpers/pageable/PageableChecker.java:132-143 | one pass of the loop: the last pass completes the trace, and any other pass leaves exactly the rest of the run from the next page; the checks' states extend those of the pages done by this page's performs |
| PageableCheckers.PageableChecker.VisitPage | src/main/java/helpers/pageable/PageableChecker.java:133-143 | one page is visited as `PageUnit` says; it reports whether the loop goes on and, if so, the active list for the next page; the checks' states are those after this page's performs |
| PageableCheckers.PageableChecker.FinishPass | src/main/java/helpers/pageable/PageableChecker.java:143 | `nextPage` is called only when checks remain and the counter is below the bound; the loop goes on exactly when it was called and succeeded |
| PageableCheckers.PageableChecker.AssertAll | src/main/java/helpers/pageable/PageableChecker.java:96-100 | every check's collected errors, in registration order, are appended to the error list; the outcome is a pass when that list is empty, otherwise one aggregate under the fixed heading |
| PageableCheckers.PageableChecker.Run | src/main/java/helpers/pageable/PageableChecker.java:85-89 | an empty check list is fatal; a run that throws passes its throwable on with no aggregation; otherwise the target is returned unless an aggregate of all collected errors, in registration order, is thrown; with distinct check objects each check has made one perform per page it was performed on and collected their errors in page order, at most one in lazy mode, and in eager mode it was performed on every page |
| PageableCheckers.PageableChecker.ProcessTurn | src/main/java/helpers/pageable/PageableChecker.java:158-177 | one turn of the page loop: a throwing check ends the page with its wrapped throwable; otherwise its verdict is noted, the page fails if it failed, and in lazy mode a failed check leaves the active list; the perform is logged and the checks' states move one perform on |
| PageableCheckers.PageableChecker.ProcessActive | src/main/java/helpers/pageable/PageableChecker.java:156-179 | the iterator loop over one page's active checks yields `ProcessedPage` for any verdict function that decides as the registered checks do; it logs the active checks' performs in order, and a page that throws nothing leaves distinct checks' states at `PageStates` |
| PageableCheckers.PageableChecker.ChecksAfterRun | src/main/java/helpers/pageable/PageableChecker.java:85-89 | after a run that throws nothing, each distinct check's counter and collected errors are its starting ones extended by its performs on the pages it was performed on, at most one error in lazy mode, every page in eager mode |
| PageableCheckers.StatesOf | src/main/java/helpers/pageable/ElementsCheck.java:15-16 | there is one state per registered check |
| PageableCheckers.StatesOfEach | src/main/java/helpers/pageable/ElementsCheck.java:15-16 | the state at each position is the counter and the collected errors of the check registered there |
| PageableCheckers.VerdictsDecide | src/main/java/helpers/pageable/PageableChecker.java:159-171 | the verdict function of the registered checks gives, at each position, that check's outcome on the page |
| PageableCheckers.ErrorFunctionsAt | src/main/java/helpers/pageable/ElementsCheck.java:23-26 | the error function at each position is that of the check registered there |
| PageableCheckers.ErrorFunctionsAdd | src/main/java/helpers/pageable/ElementsCheck.java:23-26 | the error functions say, position by position, what each registered check's perform adds |
| PageableCheckers.StatesAfterOnePerform | src/main/java/helpers/pageable/PageableChecker.java:159-171 | when one check has made one more perform and the others are unchanged, the states are those of one step on |
| PageableCheckers.PageStatesStep | src/main/java/helpers/pageable/PageableChecker.java:157-177 | the checks' states after the first i + 1 active checks are one step on from those after the first i |
| PageableCheckers.PageStatesOfCheck | src/main/java/helpers/pageable/PageableChecker.java:157-177 | after a page, a check that was active has made exactly one more perform on this page, and any other check is unchanged |
| PageableCheckers.RunStatesSnoc | src/main/java/helpers/pageable/PageableChecker.java:132-143 | the states after one more page are those after that page's performs |
| PageableCheckers.RunStatesAppend | src/main/java/helpers/pageable/PageableChecker.java:132-143 | the states after two runs of pages one after another are those of the second run from where the first left them |
| PageableCheckers.RunStatesOfCheck | src/main/java/helpers/pageable/PageableChecker.java:132-177 | after a sequence of pages, each check has made one perform per page it was performed on, and its collected errors are extended by those performs' errors in page order |
| PageableCheckers.TargetsOfCons | src/main/java/helpers/pageable/PageableChecker.java:132-143 | the pages a check was performed on are the first page, when it was active there, followed by those of the rest |
| PageableCheckers.TargetsOfNever | src/main/java/helpers/pageable/PageableChecker.java:132-143 | a check that no page performs has no pages |
| PageableCheckers.TargetsOfEvery | src/main/java/helpers/pageable/PageableChecker.java:132-143 | a check every page performs has every page |
| PageableCheckers.RunInRegistrationOrder | src/main/java/helpers/pageable/PageableChecker.java:157-177 | every page of a run performs its checks in registration order |
| PageableCheckers.EagerTargetsAreAllPages | src/main/java/helpers/pageable/PageableChecker.java:130-177 | in eager mode a starting check is performed on every page of the run |
| PageableCheckers.LazyFailsOnlyLast | src/main/java/helpers/pageable/PageableChecker.java:172-177 | in lazy mode, of the pages a check was performed on, only the last can be one where it failed |
| PageableCheckers.LazyFailsOnlyLastOn | src/main/java/helpers/pageable/PageableChecker.java:132-177 | the same for a run from a page where the loop goes on |
| PageableCheckers.FailsOnlyLastCons | src/main/java/helpers/pageable/PageableChecker.java:172-177 | a page where the check passed, put before pages where only the last can fail, keeps that property |
| PageableCheckers.RunStatesPerCheck | src/main/java/helpers/pageable/PageableChecker.java:122-177 | a run's trace leaves each check one perform further per page it was performed on, with those performs' errors in order; at most one error more in lazy mode; every page in eager mode |
| PageableCheckers.Range | src/main/java/helpers/pageable/PageableChecker.java:130 | the first page's active list holds every registered check, by position |
| PageableCheckers.RangeIncreases | src/main/java/helpers/pageable/PageableChecker.java:130 | that list is in registration order |
| PageableCheckers.PageVerdicts | src/main/java/helpers/pageable/PageableChecker.java:158-171 | a page that throws nothing yields one verdict per active check |
| PageableCheckers.PageVerdictsAreTheOutcomes | src/main/java/helpers/pageable/PageableChecker.java:158-171 | a page throws nothing iff no active check throws; each verdict is that check's outcome; otherwise the first throwing check's throwable is raised, wrapped |
| PageableCheckers.Remaining | src/main/java/helpers/pageable/PageableChecker.java:172-177 | the checks left after a page are among those that were active |
| PageableCheckers.SurvivorsWereActive | src/main/java/helpers/pageable/PageableChecker.java:172-177 | lazy removal only removes checks |
| PageableCheckers.SurvivorsKeepPassed | src/main/java/helpers/pageable/PageableChecker.java:172-177 | a check that passed stays active |
| PageableCheckers.SurvivorsInOrder | src/main/java/helpers/pageable/PageableChecker.java:172-177 | lazy removal keeps the order and removes every check that failed |
| PageableCheckers.SurvivorsValid | src/main/java/helpers/pageable/PageableChecker.java:172-177 | the survivors are still distinct registered checks in order |
| PageableCheckers.ProcessStep | src/main/java/helpers/pageable/PageableChecker.java:158-177 | advancing the page iterator by one check either throws that check's wrapped throwable, or adds its verdict and keeps or removes it according to the mode |
| PageableCheckers.PagesStep | src/main/java/helpers/pageable/PageableChecker.java:132-143 | the run from a page: a throwing page ends it; a last page records its checks and verdicts and counts a `nextPage` call only when one was made; otherwise the run goes on from the next page with the remaining checks |
| PageableCheckers.PagesOn | src/main/java/helpers/pageable/PageableChecker.java:132-143 | a page that continues is the head of the trace, followed by the rest of the run |
| PageableCheckers.PagesOff | src/main/java/helpers/pageable/PageableChecker.java:132-143 | a page that ends the run is the whole trace, or the trace is empty and carries the crash |
| PageableCheckers.PagesWellFormed | src/main/java/helpers/pageable/PageableChecker.java:132-143 | each visited page has its recorded verdicts; the run starts from the given target and checks; each page after the first was reached by a successful `nextPage` from the one before |
| PageableCheckers.PagesStart | src/main/java/helpers/pageable/PageableChecker.java:130-136 | the first page visited is the starting target, with the starting active checks |
| PageableCheckers.PagesLengths | src/main/java/helpers/pageable/PageableChecker.java:132-143 | pages, active lists and verdicts are recorded in lockstep |
| PageableCheckers.PagesBound | src/main/java/helpers/pageable/PageableChecker.java:131-143 | a run without a crash visits at least one page and never more than max(1, pageCount) pages; `nextPage` is called once per page, or one fewer, and never more than pageCount - 1 times |
| PageableCheckers.LazyPruning | src/main/java/helpers/pageable/PageableChecker.java:132-177 | in lazy mode each page performs exactly the survivors of the page before it, and never an empty set |
| PageableCheckers.LazyKeepsRegistrationOrder | src/main/java/helpers/pageable/PageableChecker.java:157-177 | in lazy mode every page performs its checks in registration order |
| PageableCheckers.FailedNotAmongSurvivors | src/main/java/helpers/pageable/PageableChecker.java:172-177 | pages that perform only survivors never perform a check that failed before |
| PageableCheckers.VisitsStayWithinStart | src/main/java/helpers/pageable/PageableChecker.java:130-143 | no page performs a check outside the starting active list |
| PageableCheckers.FailedFirstNeverRetried | src/main/java/helpers/pageable/PageableChecker.java:172-177 | in lazy mode a check that failed on the first page is performed on no later page |
| PageableCheckers.FailedCheckNeverRetried | src/main/java/helpers/pageable/PageableChecker.java:136-177 | in lazy mode a check that failed on any page is performed on no later page |
| PageableCheckers.EagerPerformsAll | src/main/java/helpers/pageable/PageableChecker.java:130-177 | in eager mode every visited page performs every starting check |
| PageableCheckers.EagerVisitsEveryPage | src/main/java/helpers/pageable/PageableChecker.java:132-143 | in eager mode, with a target that can always turn the page, a run without a crash visits exactly max(1, pageCount) pages |
| PageableCheckers.PagesSplit | src/main/java/helpers/pageable/PageableChecker.java:132-143 | the run is its first page's step followed by the run from the next page, or that step alone when the loop stops |
| PageableCheckers.PageUnitThrows | src/main/java/helpers/pageable/PageableChecker.java:136 | a throwing page records nothing, carries the crash and ends the run |
| PageableCheckers.PageUnitStops | src/main/java/helpers/pageable/PageableChecker.java:143 | with no checks left, or the counter at the bound, `nextPage` is not called and the run ends |
| PageableCheckers.PageUnitTurns | src/main/java/helpers/pageable/PageableChecker.java:143 | otherwise `nextPage` is called once and the run goes on exactly when it succeeded |
| ElementsChecks.ElementsCheck.PredicateCheck | src/main/java/helpers/pageable/PredicateCheckThatEachElement.java:34-38 | a predicate check holds its description, provider and predicate, has collected nothing, and has numbered no performs |
| ElementsChecks.ElementsCheck.AssertionCheck | src/main/java/helpers/pageable/AssertionCheckThatEachElement.java:36-40 | an assertion check holds its description, provider and assertion, has collected nothing, and has numbered no performs |
| ElementsChecks.ElementsCheck.Perform | src/main/java/helpers/pageable/ElementsCheck.java:23-26 | the counter grows by one and the result is its number, so successive results carry increasing page numbers; the collected errors grow by one exactly when the result failed; the new state is `After` the old one |
| ElementsChecks.ElementsCheck.ErrorAtMeansFailed | src/main/java/helpers/pageable/ElementsCheck.java:23-26 | a perform adds one error exactly when it fails, and none otherwise |
| ElementsChecks.ElementsCheck.ErrorsOverNoneIffNoFailure | src/main/java/helpers/pageable/ElementsCheck.java:23-26 | a sequence of performs adds no error iff none of them fails |
| ElementsChecks.ElementsCheck.ErrorsOverAtMostOne | src/main/java/helpers/pageable/ElementsCheck.java:23-26 | performs none of which fails except perhaps the last add at most one error |
| ElementsChecks.ElementsCheck.ErrorAtCountsFailures | src/main/java/helpers/pageable/ElementsCheck.java:23-26 | every perform adds one error when the check fails on its target, and none otherwise |
| ElementsChecks.ErrorsOverEmptyIff | src/main/java/helpers/pageable/ElementsCheck.java:23-26 | when each perform adds one error exactly on a failing target, a sequence of performs adds none iff none of its targets fails |
| ElementsChecks.ErrorsOverOnlyLast | src/main/java/helpers/pageable/ElementsCheck.java:23-26 | under the same counting, performs whose targets, but perhaps the last, do not fail add at most one error |
| ElementsChecks.ErrorsOverSnoc | src/main/java/helpers/pageable/ElementsCheck.java:23-26 | the errors of one more perform come after those of the earlier ones, numbered after them |
| ElementsChecks.AfterExtends | src/main/java/helpers/pageable/ElementsCheck.java:23-26 | a check's state after one more perform is its state after the earlier performs extended by that one |
| ElementsChecks.ElementsCheck.PerformWithoutNumberIncrement | src/main/java/helpers/pageable/PredicateCheckThatEachElement.java:44-52 | the result of the chosen strategy under the current number; the counter is unchanged; the result's error, if any, is appended |
| ElementsChecks.ElementsCheck.GetCollectedErrors | src/main/java/helpers/pageable/ElementsCheck.java:31-33 | returns the errors collected so far |
| ElementsChecks.ElementsCheck.OutcomeMeansSomeElementFailed | src/main/java/helpers/pageable/ElementsCheck.java:23-26 | a perform fails iff some element fails the predicate or raises an assertion error; a provider failure, or a non-assertion throwable, propagates |
| ElementsChecks.ElementsCheck.EvaluateAgreesWithOutcome | src/main/java/helpers/pageable/ElementsCheck.java:23-26 | the verdict the orchestrator uses is the failed flag of the result whatever its number, with the same throwable when it throws |
| ElementsCheckResults.FromErrorList | src/main/java/helpers/pageable/ElementsCheckResult.java:37-47 | failed iff there are errors, counting them; no error, the single error unchanged, or one composite headed by the summary |
| ElementsCheckResults.FromFailedElements | src/main/java/helpers/pageable/ElementsCheckResult.java:62-66 | failed iff some element failed, counting them; the error is the summary followed by the formatted list of failed elements |
| ElementsCheckResults.ErrorReportsEveryFailure | src/main/java/helpers/pageable/ElementsCheckResult.java:40-46 | the collapsed error reports exactly the failures of the error list, in order |
| ElementsCheckResults.ErrorPresentIffFailed | src/main/java/helpers/pageable/ElementsCheckResult.java:81-93 | from either constructor, `getError` is present iff `isFailed` |
| ElementsCheckResults.RestOpening | src/main/java/helpers/pageable/ElementsCheckResult.java:96-104 | after the page number, a summary goes on with ". О…" when failed and ". К…" when passed |
| ElementsCheckResults.SummaryDeterminesPageAndVerdict | src/main/java/helpers/pageable/ElementsCheckResult.java:96-104 | two results with the same summary have the same page number and the same verdict |
| PredicateCheckThatEachElement.PredicateResult | src/main/java/helpers/pageable/PredicateCheckThatEachElement.java:44-52 | failed iff some element fails the predicate; error present iff failed; the counts and page number are this perform's |
| PredicateCheckThatEachElement.PredicateResultListsTheFailingElements | src/main/java/helpers/pageable/PredicateCheckThatEachElement.java:46-49 | the failed elements are exactly the elements that fail the predicate, in encounter order, and the error lists all of them |
| AssertionCheckThatEachElement.AssertionResult | src/main/java/helpers/pageable/AssertionCheckThatEachElement.java:43-57 | throws iff an element's assertion throws something other than an assertion error, which is then not one; otherwise failed iff some assertion failed, with the error present iff failed |
| AssertionCheckThatEachElement.CrashIsNoAssertionError | src/main/java/helpers/pageable/AssertionCheckThatEachElement.java:47-51 | only throwables that are not assertion errors escape the loop |
| AssertionCheckThatEachElement.AssertionResultKeepsEveryError | src/main/java/helpers/pageable/AssertionCheckThatEachElement.java:45-55 | the failed count is the number of elements whose assertion failed; the error reports every one of their errors, in encounter order |
| Throwables.Collapse | src/main/java/helpers/pageable/ElementsCheckResult.java:40-46 | no error iff no failures; one failure is kept unchanged; more become one composite; the failures reported are exactly those collapsed |
| Throwables.CatchAssertionErrorsSpec | src/main/java/helpers/pageable/AssertionCheckThatEachElement.java:46-52 | the loop completes iff no element crashes; when it completes it keeps the failing elements in order; each caught error is an assertion error thrown for its element |
| Throwables.CrashExactlyOnNonAssertion | src/main/java/helpers/pageable/AssertionCheckThatEachElement.java:46-52 | the loop is cut short exactly when some element throws a non-assertion throwable |
| Throwables.CaughtInEncounterOrder | src/main/java/helpers/pageable/AssertionCheckThatEachElement.java:46-52 | a completed loop catches errors from exactly the failing elements, in encounter order |
| Throwables.CaughtOnlyAssertionErrors | src/main/java/helpers/pageable/AssertionCheckThatEachElement.java:47-50 | every caught throwable is an assertion error raised by its element |
| Throwables.CrashPersists | src/main/java/helpers/pageable/AssertionCheckThatEachElement.java:46-52 | once an element crashes, the elements after it are never tried |
| Throwables.CatchEach | src/main/java/helpers/pageable/AssertionCheckThatEachElement.java:46-52 | the try/catch loop computes the specified catches and crash |
| Throwables.CatchStep | src/main/java/helpers/pageable/AssertionCheckThatEachElement.java:46-52 | trying the next element of a loop not yet cut short: nothing thrown keeps the catches, an assertion error is caught with its element, anything else cuts the loop short |
| Throwables.FailuresOfAllAppend | src/main/java/helpers/pageable/ElementsCheckResult.java:40-46 | the failures reported by a concatenation of errors are those of each part, in order |
| Filtering.Filter | src/main/java/helpers/pageable/PredicateCheckThatEachElement.java:46-48 | the stream filter keeps only elements that satisfy the test, and no more elements than there are |
| Filtering.FilterNonEmpty | src/main/java/helpers/pageable/PredicateCheckThatEachElement.java:46-48 | the filtered list is non-empty iff some element satisfies the test |
| Filtering.FilterAppend | src/main/java/helpers/pageable/PredicateCheckThatEachElement.java:46-48 | filtering distributes over concatenation |
| Filtering.KeptIndicesIncrease | src/main/java/helpers/pageable/PredicateCheckThatEachElement.java:46-48 | the positions of the kept elements increase |
| Filtering.FilterSelectsInOrder | src/main/java/helpers/pageable/PredicateCheckThatEachElement.java:46-48 | the k-th kept element is the element at the k-th kept position |
| Filtering.KeptIndicesAreTheKeptPositions | src/main/java/helpers/pageable/PredicateCheckThatEachElement.java:46-48 | a position is kept iff its element satisfies the test |
| PageCheckResults.FromErrorList | src/main/java/helpers/pageable/PageCheckResult.java:18-28 | failed iff there are errors, whatever failing elements are passed beside them; the error collapses as in the newer result and reports every failure |
| PageCheckResults.FromFailedElements | src/main/java/helpers/pageable/PageCheckResult.java:30-34 | failed iff some element failed; the error is present iff failed and is the summary followed by the formatted list |
| PageCheckResults.SummaryAsInNewerResult | src/main/java/helpers/pageable/PageCheckResult.java:51-60 | the older summary is the newer one for the same page, verdict, counts and description |
| PageCheckResults.SummaryDeterminesPageAndVerdict | src/main/java/helpers/pageable/PageCheckResult.java:51-60 | two older results with the same summary have the same page number and verdict |
| PredicatePageChecks.PredicatePageResult | src/main/java/helpers/pageable/PredicatePageCheck.java:23-31 | failed iff some element fails the predicate; error present iff failed; every kept element fails it; the page is the caller's |
| PredicatePageChecks.PredicatePageResultKeepsTheFailingElements | src/main/java/helpers/pageable/PredicatePageCheck.java:25-28 | the kept elements are exactly the failing ones, in encounter order, and the error lists them |
| PredicatePageChecks.PredicatePageCheck.constructor | src/main/java/helpers/pageable/PredicatePageCheck.java:18-21 | holds the provider and predicate, with no description yet and nothing collected |
| PredicatePageChecks.PredicatePageCheck.Perform | src/main/java/helpers/pageable/PredicatePageCheck.java:23-31 | the result is about the caller's page; the collected errors grow by one exactly when it failed |
| PredicatePageChecks.PredicatePageCheck.GetCollectedErrors | src/main/java/helpers/pageable/PredicatePageCheck.java:33-36 | returns the errors collected so far |
| PredicatePageChecks.PredicatePageCheck.SetDescription | src/main/java/helpers/pageable/PredicatePageCheck.java:38-41 | the description becomes the argument |
| AssertionPageChecks.AssertionPageResult | src/main/java/helpers/pageable/AssertionPageCheck.java:23-39 | throws iff an assertion throws a non-assertion throwable; otherwise failed iff some assertion failed, iff failing elements were kept, iff an error is present |
| AssertionPageChecks.AssertionPageResultKeepsEveryError | src/main/java/helpers/pageable/AssertionPageCheck.java:27-36 | the kept elements are exactly those whose assertion failed, in order, and the error reports each of their errors |
| AssertionPageChecks.TryEachElement | src/main/java/helpers/pageable/AssertionPageCheck.java:27-34 | the loop appends failing elements and their errors in lockstep and stops at the first non-assertion throwable |
| AssertionPageChecks.AssertionPageCheck.constructor | src/main/java/helpers/pageable/AssertionPageCheck.java:17-20 | holds the provider and assertion, with no description yet and nothing collected |
| AssertionPageChecks.AssertionPageCheck.Perform | src/main/java/helpers/pageable/AssertionPageCheck.java:23-39 | the result or throwable of `AssertionPageResult`; the collected errors grow by its error, if any |
| AssertionPageChecks.AssertionPageCheck.GetCollectedErrors | src/main/java/helpers/pageable/AssertionPageCheck.java:41-44 | returns the errors collected so far |
| AssertionPageChecks.AssertionPageCheck.SetDescription | src/main/java/helpers/pageable/AssertionPageCheck.java:46-49 | the description becomes the argument |
| StandardChecks.Summary | src/main/java/helpers/pageable/StandardCheck.java:81-90 | `toString(int)` throws exactly when the check is failed and its failing elements are null or empty; otherwise it gives the failed or the passed wording |
| StandardChecks.FailedSummaryNamesFirstFailingElement | src/main/java/helpers/pageable/StandardCheck.java:81-90 | after a failing perform the summary counts the failing elements and names the first element that fails the predicate |
| StandardChecks.StandardCheck.constructor | src/main/java/helpers/pageable/StandardCheck.java:20-32 | not failed, nothing checked or collected, and no failing list or description yet |
| StandardChecks.StandardCheck.Perform | src/main/java/helpers/pageable/StandardCheck.java:34-59 | a provider failure propagates and changes nothing; otherwise the state is this page's alone, the flag is this page's verdict, and a failing page adds exactly one error headed by the summary |
| StandardChecks.StandardCheck.GetErrorList | src/main/java/helpers/pageable/StandardCheck.java:61-64 | returns the errors collected so far |
| StandardChecks.StandardCheck.IsFailed | src/main/java/helpers/pageable/StandardCheck.java:66-69 | returns the flag |
| StandardChecks.StandardCheck.SetFailed | src/main/java/helpers/pageable/StandardCheck.java:71-74 | the flag becomes the argument |
| StandardChecks.StandardCheck.SetDescription | src/main/java/helpers/pageable/StandardCheck.java:76-79 | the description becomes the argument |
| AssertionChecks.AssertionCheck.constructor | src/main/java/helpers/pageable/AssertionCheck.java:20-33 | not failed, nothing checked or collected, and no failing list or description yet |
| AssertionChecks.AssertionCheck.ForEachElement | src/main/java/helpers/pageable/AssertionCheck.java:45-53 | the failing elements and errors are those caught in encounter order; the flag turns on if any was caught, and never off |
| AssertionChecks.AssertionCheck.Perform | src/main/java/helpers/pageable/AssertionCheck.java:36-68 | the flag only turns on; a crash propagates; with failures now, one composite of this page's errors headed by the summary is added; a flag left over from an earlier page with no failures now makes the summary throw `IndexOutOfBoundsException` |
| AssertionChecks.AssertionCheck.GetErrorList | src/main/java/helpers/pageable/AssertionCheck.java:70-73 | returns the composites collected so far |
| AssertionChecks.AssertionCheck.IsFailed | src/main/java/helpers/pageable/AssertionCheck.java:75-78 | returns the flag |
| AssertionChecks.AssertionCheck.SetFailed | src/main/java/helpers/pageable/AssertionCheck.java:80-83 | the flag becomes the argument; it is the only way to clear it |
| AssertionChecks.AssertionCheck.SetDescription | src/main/java/helpers/pageable/AssertionCheck.java:85-88 | the description becomes the argument |
| StringsUtils.CollectionToString | src/main/java/helpers/StringsUtils.java:9-23 | the loop builds the bracketed, newline-separated list of the shown elements, and "[]" for none |
| StringsUtils.SplitJoinLines | src/main/java/helpers/StringsUtils.java:14-22 | splitting the joined list at its newlines gives back the items when none of them holds a newline |
| StringsUtils.NewlinesOfJoinLines | src/main/java/helpers/StringsUtils.java:16-21 | n newline-free items are joined with n - 1 newlines |
| StringsUtils.NewlinesOfBracketed | src/main/java/helpers/StringsUtils.java:9-23 | the result starts with '[' and ends with ']', with one newline fewer than there are newline-free items |
| StringsUtils.ContainsIsOccurrence | src/main/java/helpers/StringsUtils.java:27 | `contains` holds iff the part occurs at some offset |
| StringsUtils.StringContainsAnyStringCaseInsensitively | src/main/java/helpers/StringsUtils.java:25-28 | true iff the lowered string contains some lowered keyword; an empty keyword list matches nothing |
| StringChecker.ContainsAnyOfEachList | src/main/java/helpers/StringChecker.java:20-22 | a string passes iff it contains some keyword of each list |
| StringChecker.EachStringContainAnyStringOfEachList | src/main/java/helpers/StringChecker.java:18-24 | null is returned iff every string passes |
| StringChecker.ResultIsFirstFailingString | src/main/java/helpers/StringChecker.java:18-24 | a string that is returned is the first one that fails |
| StringChecker.NoListsFindsNothing | src/main/java/helpers/StringChecker.java:20-23 | with no keyword lists, no string fails |
| StringChecker.EmptyKeywordListFailsFirstString | src/main/java/helpers/StringChecker.java:21-23 | an empty keyword list fails every string, so the first string is returned |
| Decimal.NatToString | src/main/java/helpers/pageable/ElementsCheckResult.java:98-102 | a natural number is rendered as at least one decimal digit |
| Decimal.ParseNatToString | src/main/java/helpers/pageable/ElementsCheckResult.java:98-102 | reading the decimal rendering back gives the number |
| Decimal.SignOfIntToString | src/main/java/helpers/pageable/ElementsCheckResult.java:98-102 | the rendering starts with '-' iff the number is negative |
| Decimal.IntToStringInjective | src/main/java/helpers/pageable/ElementsCheckResult.java:98-102 | distinct page numbers and counts are rendered differently |

## Left out

- Allure reporting is not modelled: steps, their names and statuses, attachments of the page source and of the failed elements, and `getStatusDetails`. The `pageableCheckFailed` flag only feeds the report, so it is left out too.
- The `WebDriver` is not modelled, and `driver.getPageSource()` is a reporting call only.
- `CustomAllure.stepWithChangeableStatus` is modelled only by its effect on throwables:
  - the value-returning form wraps any throwable as `WrappedException`;
  - the void form passes it through unchanged.
- `Pageable.nextPage` is a function from the target's state to a flag and a new state. Side effects of a real page object beyond that are outside the model.
- Element providers and callbacks are functions; `null` collections returned by a provider are not modelled.
- In the newer checks a predicate that throws is not modelled: predicates are total `E -> bool`. The assertion callbacks do model throwing, by returning the throwable.
- `String.valueOf` of an element and `toLowerCase` are parameters (`show`, `lower`). Java's Unicode case mapping is not modelled.
- Java `int` overflow is not modelled: counters, the page number and the page bound are unbounded integers.
- PageableCheckers.PageableChecker.ProcessPageCheck: the active checks are positions in the check list. Its `ListIterator.remove` on a shared list becomes returning the new active list.
- PageableCheckers.PageableChecker.Run: the per-check states are promised only when no check object is registered twice (`Distinct`). The source allows that aliasing; then one object is performed once per position, and the model does not describe its state.
- PageableCheckers.PageableChecker.RunWithoutThrowing: after a run that throws, the checks' states are not described. Some checks have then been performed on the last page and others not.
- PageableCheckers.PageableChecker.RunPages, PageableCheckers.PageableChecker.RunPass and PageableCheckers.PageableChecker.VisitPage: the same holds: the checks' states are described only on the paths that throw nothing.
- PageableCheckers.PageableChecker: all checks of one checker share one element type `E`. In Java each registered check may have its own element type (`PageableChecker.java:34`, `PageableChecker.java:109`). A caller mixing them would encode their elements as one sum type.
- PageableCheckers.PageableChecker.AssertAll: the aggregate keeps its heading verbatim. The opentest4j `MultipleFailuresError` trims the heading and replaces a blank one with "Multiple Failures". Only the fixed, non-blank heading is used here, so the message text is the same.
- ElementsCheckResults.FromErrorList: the composite keeps the summary `r.ToString()` as its heading verbatim. opentest4j stores the heading trimmed, so for a description ending in whitespace the real heading lacks that trailing whitespace.
- PageCheckResults.FromErrorList: the same holds for the older summary used as the composite's heading.
- AssertionChecks.AssertionCheck.Perform: the same holds for the heading `toString(pageNumber)` of each page's composite.
- PageableCheckers.PagesStep: a page whose perform throws is not recorded in the trace; the run ends with its throwable.
- PageableCheckers.Verdicts: for a check position outside the list it yields a placeholder verdict. This is never used, because every active position is valid.
- Filtering.Filter: its own contract states only that kept elements satisfy the test. Order and exact membership are the separate lemmas `FilterSelectsInOrder` and `KeptIndicesAreTheKeptPositions`.
- StandardChecks.StandardCheck.Perform: only a throwing provider is modelled; a throwing predicate is not.
- PredicatePageChecks.PredicatePageCheck.Perform: a predicate that throws is not modelled; `condition` is a total `E -> bool`. In Java the exception would leave `perform` from inside the stream filter (`PredicatePageCheck.java:25-27`). A throwing provider is modelled, as a `Failure`.
- PredicatePageChecks.PredicatePageResult: the same holds: the predicate is total, so the result never carries a throw from it.
- `setDescription(null)` is not modelled: the description argument is a string.
- `AssertionElementsCheck` and `PredicateElementsCheck` are not part of this model: they are earlier copies of the two newer strategies.
- The interfaces `ElementsCheckWithErrorCollector`, `PageCheck` and `Check` have no counterpart of their own. The newer strategies are one class `ElementsCheck` with a `Strategy` value. The older classes stand alone with the interface methods they implement.
