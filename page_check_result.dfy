/**
 * `PageCheckResult`: the older generation's immutable outcome of one check on one page. It
 * keeps the failing elements themselves and counts them in its summary; its description is
 * the check's description, which stays `null` until one is set.
 */
module PageCheckResults {
  import opened Wrappers
  import opened Throwables
  import opened Decimal
  import opened StringsUtils
  import ElementsCheckResults

  datatype PageCheckResult<E> = PageCheckResult(
    descriptionPart: Option<string>,
    isFailed: bool,
    failedElementList: seq<E>,
    error: Option<Throwable>,
    pageNumber: int,
    checkedElementCount: int)
  {
    /** The summary of the result, in the report's own words. */
    function ToString(): string
    {
      if isFailed then
        "Стр. " + IntToString(pageNumber) + ". Обнаружено " + IntToString(|failedElementList|) + " (из "
        + IntToString(checkedElementCount) + " шт.) элементов, каждый из которых не " + NullableString(descriptionPart)
      else
        "Стр. " + IntToString(pageNumber) + ". Каждый элемент (" + IntToString(checkedElementCount) + " шт.) "
        + NullableString(descriptionPart)
    }

    /** The newer result that carries the same verdict, counts and description. */
    function AsElementsCheckResult(): ElementsCheckResults.ElementsCheckResult
    {
      ElementsCheckResults.ElementsCheckResult(NullableString(descriptionPart), isFailed, |failedElementList|, error,
                                               pageNumber, checkedElementCount)
    }
  }

  /**
   * The constructor over the errors that the failing elements raised: the verdict comes from
   * the errors alone, whatever failing elements are passed beside them, and the errors collapse.
   */
  function FromErrorList<E>(descriptionPart: Option<string>, errorList: seq<Throwable>, failedElementList: seq<E>,
                            pageNumber: int, checkedElementCount: int): (r: PageCheckResult<E>)
    ensures r.isFailed <==> |errorList| > 0
    ensures r.error.Some? <==> r.isFailed
    ensures r.failedElementList == failedElementList && r.descriptionPart == descriptionPart
    ensures r.pageNumber == pageNumber && r.checkedElementCount == checkedElementCount
    ensures |errorList| == 1 ==> r.error == Some(errorList[0])
    ensures |errorList| > 1 ==> r.error == Some(MultipleFailuresError(r.ToString(), errorList))
    ensures FailuresOf(r.error) == FailuresOfAll(errorList)
  {
    var r := PageCheckResult(descriptionPart, |errorList| > 0, failedElementList, None, pageNumber, checkedElementCount);
    r.(error := Collapse(r.ToString(), errorList))
  }

  /** The constructor over the elements that failed a predicate: one error listing them, if any. */
  function FromFailedElements<E>(descriptionPart: Option<string>, failedElementList: seq<E>, show: E -> string,
                                 pageNumber: int, checkedElementCount: int): (r: PageCheckResult<E>)
    ensures r.isFailed <==> |failedElementList| > 0
    ensures r.error.Some? <==> r.isFailed
    ensures r.failedElementList == failedElementList && r.descriptionPart == descriptionPart
    ensures r.pageNumber == pageNumber && r.checkedElementCount == checkedElementCount
    ensures r.isFailed ==> r.error == Some(AssertionError(r.ToString() + "\n" + Bracketed(Shown(failedElementList, show))))
  {
    var r := PageCheckResult(descriptionPart, |failedElementList| > 0, failedElementList, None, pageNumber, checkedElementCount);
    r.(error := if r.isFailed then Some(AssertionError(r.ToString() + "\n" + Bracketed(Shown(failedElementList, show)))) else None)
  }

  /** The error a perform adds to the collected errors: the result's error, if it returned one. */
  function ErrorOf<E>(r: Result<PageCheckResult<E>, Throwable>): seq<Throwable>
  {
    if r.Success? && r.value.error.Some? then [r.value.error.value] else []
  }

  /**
   * Both generations word their summaries alike: the older summary is the newer one for the
   * same page, verdict, counts and description, the failed count being the number of failing elements.
   */
  lemma SummaryAsInNewerResult<E>(r: PageCheckResult<E>)
    ensures r.ToString() == r.AsElementsCheckResult().ToString()
  {
    var page := IntToString(r.pageNumber);
    if r.isFailed {
      var a, b, c := IntToString(|r.failedElementList|), IntToString(r.checkedElementCount), NullableString(r.descriptionPart);
      AppendsRegroup("Стр. " + page, ". Обнаружено ", a, " (из ", b, " шт.) элементов, каждый из которых не ", c);
    } else {
      var b, c := IntToString(r.checkedElementCount), NullableString(r.descriptionPart);
      ShortAppendsRegroup("Стр. " + page, ". Каждый элемент (", b, " шт.) ", c);
    }
  }

  /** A chain of appends, regrouped behind its first piece. */
  lemma AppendsRegroup(p: string, s0: string, s1: string, s2: string, s3: string, s4: string, s5: string)
    ensures p + s0 + s1 + s2 + s3 + s4 + s5 == p + (s0 + s1 + s2 + s3 + s4 + s5)
  {
  }

  lemma ShortAppendsRegroup(p: string, s0: string, s1: string, s2: string, s3: string)
    ensures p + s0 + s1 + s2 + s3 == p + (s0 + s1 + s2 + s3)
  {
  }

  /**
   * The older summary reads back too: two results with the same summary are about the same
   * page and have the same verdict.
   */
  lemma SummaryDeterminesPageAndVerdict<E>(r1: PageCheckResult<E>, r2: PageCheckResult<E>)
    requires r1.ToString() == r2.ToString()
    ensures r1.pageNumber == r2.pageNumber && r1.isFailed == r2.isFailed
  {
    SummaryAsInNewerResult(r1);
    SummaryAsInNewerResult(r2);
    ElementsCheckResults.SummaryDeterminesPageAndVerdict(r1.AsElementsCheckResult(), r2.AsElementsCheckResult());
  }
}
