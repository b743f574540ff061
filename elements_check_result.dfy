/**
 * `ElementsCheckResult`: the immutable outcome of one check on one page. Its two
 * constructors derive the verdict and the single reportable error, by the collapsing rule
 * when each failing element raised its own error, or as one error listing the failing
 * elements when a predicate decided.
 */
module ElementsCheckResults {
  import opened Wrappers
  import opened Throwables
  import opened Decimal
  import opened StringsUtils

  datatype ElementsCheckResult = ElementsCheckResult(
    descriptionPart: string,
    isFailed: bool,
    failedElementCount: int,
    error: Option<Throwable>,
    pageNumber: int,
    checkedElementCount: int)
  {
    /** The summary of the result, in the report's own words. */
    function ToString(): string
    {
      "Стр. " + IntToString(pageNumber) + Rest()
    }

    /** What the summary says after the page number. */
    function Rest(): string
    {
      if isFailed then
        ". Обнаружено " + IntToString(failedElementCount) + " (из " + IntToString(checkedElementCount)
        + " шт.) элементов, каждый из которых не " + descriptionPart
      else
        ". Каждый элемент (" + IntToString(checkedElementCount) + " шт.) " + descriptionPart
    }
  }

  /** The constructor over the errors that the failing elements raised. */
  function FromErrorList(descriptionPart: string, pageNumber: int, errorList: seq<Throwable>, checkedElementCount: int): (r: ElementsCheckResult)
    ensures r.isFailed <==> |errorList| > 0
    ensures r.failedElementCount == |errorList|
    ensures r.descriptionPart == descriptionPart && r.pageNumber == pageNumber
    ensures r.checkedElementCount == checkedElementCount
    ensures |errorList| == 0 ==> r.error == None
    ensures |errorList| == 1 ==> r.error == Some(errorList[0])
    ensures |errorList| > 1 ==> r.error == Some(MultipleFailuresError(r.ToString(), errorList))
  {
    var r := ElementsCheckResult(descriptionPart, |errorList| > 0, |errorList|, None, pageNumber, checkedElementCount);
    r.(error := Collapse(r.ToString(), errorList))
  }

  /** The constructor over the elements that failed a predicate. */
  function FromFailedElements<E>(descriptionPart: string, failedElementList: seq<E>, show: E -> string,
                                 pageNumber: int, checkedElementCount: int): (r: ElementsCheckResult)
    ensures r.isFailed <==> |failedElementList| > 0
    ensures r.failedElementCount == |failedElementList|
    ensures r.descriptionPart == descriptionPart && r.pageNumber == pageNumber
    ensures r.checkedElementCount == checkedElementCount
    ensures r.error == if r.isFailed then Some(AssertionError(r.ToString() + "\n" + Bracketed(Shown(failedElementList, show)))) else None
  {
    var r := ElementsCheckResult(descriptionPart, |failedElementList| > 0, |failedElementList|, None, pageNumber, checkedElementCount);
    r.(error := if r.isFailed then Some(AssertionError(r.ToString() + "\n" + Bracketed(Shown(failedElementList, show)))) else None)
  }

  /**
   * Collapsing keeps every failure: the individual failures reported by the result's error
   * are, in order, those of the errors it was built from.
   */
  lemma ErrorReportsEveryFailure(descriptionPart: string, pageNumber: int, errorList: seq<Throwable>, checkedElementCount: int)
    ensures FailuresOf(FromErrorList(descriptionPart, pageNumber, errorList, checkedElementCount).error) == FailuresOfAll(errorList)
  {
    var r := ElementsCheckResult(descriptionPart, |errorList| > 0, |errorList|, None, pageNumber, checkedElementCount);
    assert FromErrorList(descriptionPart, pageNumber, errorList, checkedElementCount).error == Collapse(r.ToString(), errorList);
  }

  /** `getError()` is empty exactly when `isFailed()` is false, whichever constructor built the result. */
  lemma ErrorPresentIffFailed<E>(descriptionPart: string, pageNumber: int, errorList: seq<Throwable>,
                                 failedElementList: seq<E>, show: E -> string, checkedElementCount: int)
    ensures var r := FromErrorList(descriptionPart, pageNumber, errorList, checkedElementCount);
      r.error.Some? <==> r.isFailed
    ensures var r := FromFailedElements(descriptionPart, failedElementList, show, pageNumber, checkedElementCount);
      r.error.Some? <==> r.isFailed
  {
  }

  predicate HasNoDot(s: string)
  {
    forall k :: 0 <= k < |s| ==> s[k] != '.'
  }

  lemma IntToStringHasNoDot(n: int)
    ensures HasNoDot(IntToString(n))
  {
    if n < 0 {
      assert IntToString(n) == "-" + NatToString(-n);
      forall k | 0 <= k < |IntToString(n)|
        ensures IntToString(n)[k] != '.'
      {
        if k > 0 {
          assert IntToString(n)[k] == NatToString(-n)[k - 1];
        }
      }
    }
  }

  /** The first dot of `a + x` is the first character of `x`. */
  lemma FirstDot(a: string, x: string)
    requires HasNoDot(a) && |x| > 0 && x[0] == '.'
    ensures (a + x)[|a|] == '.'
    ensures forall k :: 0 <= k < |a| ==> (a + x)[k] != '.'
  {
  }

  /** Two strings that each run up to a first dot agree on what comes before it. */
  lemma UpToFirstDot(a: string, x: string, b: string, y: string)
    requires HasNoDot(a) && HasNoDot(b)
    requires |x| > 0 && x[0] == '.' && |y| > 0 && y[0] == '.'
    requires a + x == b + y
    ensures a == b && x == y
  {
    FirstDot(a, x);
    FirstDot(b, y);
    assert |a| == |b|;
    assert a == (a + x)[..|a|] && b == (b + y)[..|b|];
    assert x == (a + x)[|a|..] && y == (b + y)[|b|..];
  }

  lemma PrefixDrop(a: string, b: string)
    ensures (a + b)[|a|..] == b
  {
  }

  /** Appending keeps the first three characters. */
  lemma KeepsOpening(s: string, t: string)
    requires |s| > 2
    ensures |s + t| > 2 && (s + t)[0] == s[0] && (s + t)[2] == s[2]
  {
  }

  /** The rest of the summary opens with the dot after the page number, then the verdict's first word. */
  lemma RestOpening(r: ElementsCheckResult)
    ensures |r.Rest()| > 2 && r.Rest()[0] == '.'
    ensures r.Rest()[2] == if r.isFailed then 'О' else 'К'
  {
    if r.isFailed {
      var s0 := ". Обнаружено ";
      var s1 := s0 + IntToString(r.failedElementCount);
      var s2 := s1 + " (из ";
      var s3 := s2 + IntToString(r.checkedElementCount);
      var s4 := s3 + " шт.) элементов, каждый из которых не ";
      KeepsOpening(s0, IntToString(r.failedElementCount));
      KeepsOpening(s1, " (из ");
      KeepsOpening(s2, IntToString(r.checkedElementCount));
      KeepsOpening(s3, " шт.) элементов, каждый из которых не ");
      KeepsOpening(s4, r.descriptionPart);
    } else {
      var s0 := ". Каждый элемент (";
      var s1 := s0 + IntToString(r.checkedElementCount);
      var s2 := s1 + " шт.) ";
      KeepsOpening(s0, IntToString(r.checkedElementCount));
      KeepsOpening(s1, " шт.) ");
      KeepsOpening(s2, r.descriptionPart);
    }
  }

  /**
   * The summary reads back: two results with the same summary are about the same page and
   * have the same verdict, so a passed and a failed summary never coincide.
   */
  lemma SummaryDeterminesPageAndVerdict(r1: ElementsCheckResult, r2: ElementsCheckResult)
    requires r1.ToString() == r2.ToString()
    ensures r1.pageNumber == r2.pageNumber && r1.isFailed == r2.isFailed
  {
    IntToStringHasNoDot(r1.pageNumber);
    IntToStringHasNoDot(r2.pageNumber);
    RestOpening(r1);
    RestOpening(r2);
    SummaryReadsBack(IntToString(r1.pageNumber), r1.Rest(), IntToString(r2.pageNumber), r2.Rest());
    IntToStringInjective(r1.pageNumber, r2.pageNumber);
  }

  /** Two summaries that agree agree on the page number and on what follows it. */
  lemma SummaryReadsBack(p1: string, rest1: string, p2: string, rest2: string)
    requires HasNoDot(p1) && HasNoDot(p2)
    requires |rest1| > 0 && rest1[0] == '.' && |rest2| > 0 && rest2[0] == '.'
    requires "Стр. " + p1 + rest1 == "Стр. " + p2 + rest2
    ensures p1 == p2 && rest1 == rest2
  {
    var w1, w2 := p1 + rest1, p2 + rest2;
    assert "Стр. " + p1 + rest1 == "Стр. " + w1;
    assert "Стр. " + p2 + rest2 == "Стр. " + w2;
    PrefixDrop("Стр. ", w1);
    PrefixDrop("Стр. ", w2);
    UpToFirstDot(p1, rest1, p2, rest2);
  }
}
