/**
 * `PageableChecker`: runs a list of registered checks over successive pages of a pageable
 * target, in lazy mode (a check that failed once is dropped for the following pages) or in
 * eager mode (every check on every page), within a bound on the number of pages; afterwards
 * `assertAll` gathers the errors every check collected into one aggregate.
 *
 * The run is specified by `Pages`, a function of the checks' verdicts (`ElementsCheck.Outcome`)
 * and the target's `nextPage`; the class's loops are proved to follow it, and the lemmas below
 * state the counting and ordering facts about the pages visited.
 */
module PageableCheckers {
  import opened Wrappers
  import opened Filtering
  import opened Throwables
  import opened ElementsCheckResults
  import opened ElementsChecks

  /** The default page bound, which rules out an endless run. */
  const DefaultPageCount: int := 1000
  /** The heading of the aggregate that `assertAll` throws. */
  const AggregateHeading: string := "Pageable check assertion failures:"
  const EmptyChecklistMessage: string := "Checklist is empty"

  function Max(a: int, b: int): int
  {
    if a < b then b else a
  }

  /** The registration positions `0, 1, ..., n - 1`: every check, in registration order. */
  function Range(n: nat): (r: seq<nat>)
    ensures |r| == n && forall i :: 0 <= i < n ==> r[i] == i
    decreases n
  {
    if n == 0 then [] else Range(n - 1) + [n - 1]
  }

  lemma RangeIncreases(n: nat)
    ensures StrictlyIncreasing(Range(n))
  {
  }

  /** Every position of `active` names a registered check. */
  predicate ValidActive(active: seq<nat>, n: nat)
  {
    forall k :: 0 <= k < |active| ==> active[k] < n
  }

  /** The active checks left after lazy removal of those whose verdict is failed. */
  function Survivors(active: seq<nat>, verdicts: seq<bool>): seq<nat>
    requires |verdicts| == |active|
    decreases |active|
  {
    if |active| == 0 then []
    else
      var n := |active| - 1;
      Survivors(active[..n], verdicts[..n]) + (if verdicts[n] then [] else [active[n]])
  }

  /** Lazy removal only removes: every survivor was active. */
  lemma {:induction false} SurvivorsWereActive(active: seq<nat>, verdicts: seq<bool>)
    requires |verdicts| == |active|
    ensures var s := Survivors(active, verdicts);
      |s| <= |active| && forall m :: 0 <= m < |s| ==> s[m] in active
    decreases |active|
  {
    if |active| > 0 {
      var n := |active| - 1;
      SurvivorsWereActive(active[..n], verdicts[..n]);
      var before := Survivors(active[..n], verdicts[..n]);
      var s := Survivors(active, verdicts);
      forall m | 0 <= m < |s|
        ensures s[m] in active
      {
        if m < |before| {
          assert s[m] == before[m] && before[m] in active[..n];
        }
      }
    }
  }

  /** Lazy removal keeps every check that did not fail. */
  lemma {:induction false} SurvivorsKeepPassed(active: seq<nat>, verdicts: seq<bool>)
    requires |verdicts| == |active|
    ensures forall k :: 0 <= k < |active| && !verdicts[k] ==> active[k] in Survivors(active, verdicts)
    decreases |active|
  {
    if |active| > 0 {
      var n := |active| - 1;
      SurvivorsKeepPassed(active[..n], verdicts[..n]);
      forall k | 0 <= k < n && !verdicts[k]
        ensures active[k] in Survivors(active, verdicts)
      {
        assert active[..n][k] == active[k] && verdicts[..n][k] == verdicts[k];
      }
    }
  }

  /**
   * On a list in registration order, lazy removal keeps the order and removes every check
   * that failed.
   */
  lemma {:induction false} SurvivorsInOrder(active: seq<nat>, verdicts: seq<bool>)
    requires |verdicts| == |active| && StrictlyIncreasing(active)
    ensures StrictlyIncreasing(Survivors(active, verdicts))
    ensures forall k :: 0 <= k < |active| && verdicts[k] ==> active[k] !in Survivors(active, verdicts)
    decreases |active|
  {
    if |active| > 0 {
      var n := |active| - 1;
      var init, vinit := active[..n], verdicts[..n];
      assert StrictlyIncreasing(init);
      SurvivorsInOrder(init, vinit);
      SurvivorsWereActive(init, vinit);
      var before := Survivors(init, vinit);
      forall m | 0 <= m < |before|
        ensures before[m] < active[n]
      {
        var k :| 0 <= k < |init| && init[k] == before[m];
      }
      forall k | 0 <= k < |active| && verdicts[k]
        ensures active[k] !in Survivors(active, verdicts)
      {
        if k < n {
          assert init[k] == active[k] && vinit[k];
        }
      }
    }
  }

  /** Lazy removal decides each check by its own verdict, one after another. */
  lemma SurvivorsSnoc(active: seq<nat>, verdicts: seq<bool>, x: nat, failed: bool)
    requires |verdicts| == |active|
    ensures Survivors(active + [x], verdicts + [failed]) == Survivors(active, verdicts) + (if failed then [] else [x])
  {
    assert (active + [x])[..|active|] == active && (verdicts + [failed])[..|active|] == verdicts;
  }

  /** Lazy removal keeps the active list valid. */
  lemma {:induction false} SurvivorsValid(active: seq<nat>, verdicts: seq<bool>, n: nat)
    requires |verdicts| == |active| && ValidActive(active, n)
    ensures ValidActive(Survivors(active, verdicts), n)
    decreases |active|
  {
    if |active| > 0 {
      var k := |active| - 1;
      assert ValidActive(active[..k], n);
      SurvivorsValid(active[..k], verdicts[..k], n);
    }
  }

  /** The active list for the next page: the survivors in lazy mode, the same list in eager mode. */
  function Remaining(lazy: bool, active: seq<nat>, verdicts: seq<bool>): (r: seq<nat>)
    requires |verdicts| == |active|
    ensures forall m :: 0 <= m < |r| ==> r[m] in active
  {
    SurvivorsWereActive(active, verdicts);
    if lazy then Survivors(active, verdicts) else active
  }

  /** The next active list is decided check by check, in order. */
  lemma RemainingSnoc(lazy: bool, active: seq<nat>, verdicts: seq<bool>, x: nat, failed: bool)
    requires |verdicts| == |active|
    ensures Remaining(lazy, active + [x], verdicts + [failed]) == Remaining(lazy, active, verdicts) + (if lazy && failed then [] else [x])
  {
    SurvivorsSnoc(active, verdicts, x, failed);
  }

  /** The verdict `verdict` gives the check at position `k` on `target`. */
  function VerdictAt<T>(verdict: (nat, T) -> Result<bool, Throwable>, k: nat, target: T): Result<bool, Throwable>
  {
    verdict(k, target)
  }

  /**
   * One step of `processPageCheck`'s loop over `active`, after the verdicts of the first `i`
   * checks: the `i`-th check either throws, and so does the page, or adds its verdict to
   * those of the page and decides whether it stays active.
   */
  lemma ProcessStep<T>(verdict: (nat, T) -> Result<bool, Throwable>, active: seq<nat>, target: T, lazy: bool, i: nat, verdicts: seq<bool>)
    requires i < |active| && |verdicts| == i
    ensures var o := VerdictAt(verdict, active[i], target);
      o.Failure? ==> Prepend(verdicts, PageVerdicts(verdict, active[i..], target)) == Failure(WrappedException(o.error))
    ensures var o := VerdictAt(verdict, active[i], target);
      o.Success? ==>
        && Prepend(verdicts, PageVerdicts(verdict, active[i..], target)) == Prepend(verdicts + [o.value], PageVerdicts(verdict, active[i + 1..], target))
        && Remaining(lazy, active[..i + 1], verdicts + [o.value]) == Remaining(lazy, active[..i], verdicts) + (if lazy && o.value then [] else [active[i]])
    ensures active[..i + 1] == active[..i] + [active[i]]
  {
    assert active[i..][1..] == active[i + 1..];
    assert active[..i + 1] == active[..i] + [active[i]];
    var o := verdict(active[i], target);
    if o.Success? {
      PrependTwice(verdicts, [o.value], PageVerdicts(verdict, active[i + 1..], target));
      RemainingSnoc(lazy, active[..i], verdicts, active[i], o.value);
    }
  }

  /** `r` with `v` put before its verdicts, if it has any. */
  function Prepend(v: seq<bool>, r: Result<seq<bool>, Throwable>): Result<seq<bool>, Throwable>
  {
    match r
    case Failure(t) => Failure(t)
    case Success(w) => Success(v + w)
  }

  lemma PrependNothing(r: Result<seq<bool>, Throwable>)
    ensures Prepend([], r) == r
  {
    if r.Success? {
      assert [] + r.value == r.value;
    }
  }

  lemma PrependTwice(a: seq<bool>, b: seq<bool>, r: Result<seq<bool>, Throwable>)
    ensures Prepend(a, Prepend(b, r)) == Prepend(a + b, r)
  {
    if r.Success? {
      assert a + (b + r.value) == (a + b) + r.value;
    }
  }

  /**
   * What each registered check's perform decides, by position: whether it fails, or what it
   * throws. Positions past the end never occur in an active list.
   */
  function Verdicts<T, E>(checks: seq<ElementsCheck<T, E>>): (nat, T) -> Result<bool, Throwable>
  {
    (k: nat, target: T) => if k < |checks| then checks[k].Outcome(target) else Success(false)
  }

  /**
   * `verdict` says, on `target`, what each registered check's perform decides. The link to a
   * check's `Outcome` is made only where `VerdictAt` is asked for that check.
   */
  ghost predicate DecidesOn<T, E>(verdict: (nat, T) -> Result<bool, Throwable>, checks: seq<ElementsCheck<T, E>>, target: T)
  {
    forall k: nat {:trigger VerdictAt(verdict, k, target)} :: k < |checks| ==> VerdictAt(verdict, k, target) == checks[k].Outcome(target)
  }

  /** The verdicts of the registered checks decide on every state of the target. */
  lemma VerdictsDecide<T, E>(checks: seq<ElementsCheck<T, E>>, target: T)
    ensures DecidesOn(Verdicts(checks), checks, target)
  {
  }

  /**
   * The verdicts of the active checks performed one after another on `target`, or what the
   * first check that throws throws, rewrapped by the reporting step around each perform.
   */
  function PageVerdicts<T>(verdict: (nat, T) -> Result<bool, Throwable>, active: seq<nat>, target: T): (r: Result<seq<bool>, Throwable>)
    ensures r.Success? ==> |r.value| == |active|
    decreases |active|
  {
    if |active| == 0 then Success([])
    else
      match verdict(active[0], target)
      case Failure(t) => Failure(WrappedException(t))
      case Success(f) => Prepend([f], PageVerdicts(verdict, active[1..], target))
  }

  /**
   * A page's verdicts are the active checks' outcomes, in order; the page throws exactly when
   * some active check throws, and then throws the first such check's throwable, rewrapped.
   */
  lemma {:induction false} PageVerdictsAreTheOutcomes<T>(verdict: (nat, T) -> Result<bool, Throwable>, active: seq<nat>, target: T)
    ensures var r := PageVerdicts(verdict, active, target);
      && (r.Success? <==> forall k :: 0 <= k < |active| ==> verdict(active[k], target).Success?)
      && (r.Success? ==> forall k :: 0 <= k < |active| ==> verdict(active[k], target) == Success(r.value[k]))
      && (r.Failure? ==> exists k :: FirstThrowing(verdict, active, target, k) && r.error == WrappedException(verdict(active[k], target).error))
    decreases |active|
  {
    if |active| > 0 {
      var tail := active[1..];
      PageVerdictsAreTheOutcomes(verdict, tail, target);
      var r := PageVerdicts(verdict, active, target);
      forall k | 0 < k < |active|
        ensures active[k] == tail[k - 1]
      {
      }
      if verdict(active[0], target).Failure? {
        assert FirstThrowing(verdict, active, target, 0);
      } else if r.Failure? {
        var k :| FirstThrowing(verdict, tail, target, k) && r.error == WrappedException(verdict(tail[k], target).error);
        assert FirstThrowing(verdict, active, target, k + 1);
      }
    }
  }

  /** The check at position `k` of `active` is the first one that throws. */
  predicate FirstThrowing<T>(verdict: (nat, T) -> Result<bool, Throwable>, active: seq<nat>, target: T, k: int)
  {
    && 0 <= k < |active|
    && verdict(active[k], target).Failure?
    && forall j :: 0 <= j < k ==> verdict(active[j], target).Success?
  }

  /** What `processPageCheck` ends with: whether the page passed and the active list for the next page. */
  function ProcessedPage<T>(verdict: (nat, T) -> Result<bool, Throwable>, active: seq<nat>, target: T, lazy: bool): Result<(bool, seq<nat>), Throwable>
  {
    match PageVerdicts(verdict, active, target)
    case Failure(t) => Failure(t)
    case Success(v) => Success((true !in v, Remaining(lazy, active, v)))
  }

  /**
   * What a run depends on: the number of registered checks and what each one's perform
   * decides on a given state of the target, the target's `nextPage`, the mode and the page bound.
   */
  datatype RunConfig<!T> = RunConfig(checkCount: nat, verdict: (nat, T) -> Result<bool, Throwable>, nextPage: T -> (bool, T), lazy: bool, pageCount: int)

  /**
   * The course of a run: the state of the target on each page visited, the active checks
   * performed there and their verdicts, how often `nextPage` was called, the final state of
   * the target, and what the run threw, if anything (a page that throws is not recorded).
   */
  datatype Trace<T> = Trace(pages: seq<T>, visits: seq<seq<nat>>, verdicts: seq<seq<bool>>, turns: nat, target: T, crash: Option<Throwable>)

  /** The trace of `rest` after a completed page. */
  function Cons<T>(target: T, active: seq<nat>, v: seq<bool>, rest: Trace<T>): Trace<T>
  {
    Trace([target] + rest.pages, [active] + rest.visits, [v] + rest.verdicts, rest.turns, rest.target, rest.crash)
  }

  /** `rest` after one more call of `nextPage`. */
  function Turned<T>(rest: Trace<T>): Trace<T>
  {
    rest.(turns := rest.turns + 1)
  }

  /** `prefix` followed by the trace `rest`. */
  function Join<T>(prefix: Trace<T>, rest: Trace<T>): Trace<T>
  {
    Trace(prefix.pages + rest.pages, prefix.visits + rest.visits, prefix.verdicts + rest.verdicts,
          prefix.turns + rest.turns, rest.target, rest.crash)
  }

  /** Whether the loop goes on after this page: checks remain, the counter is below the bound, and `nextPage` succeeds. */
  predicate GoesOn<T>(c: RunConfig<T>, target: T, active: seq<nat>, page: int)
  {
    var pv := PageVerdicts(c.verdict, active, target);
    && pv.Success?
    && |Remaining(c.lazy, active, pv.value)| > 0
    && page + 1 < c.pageCount
    && c.nextPage(target).0
  }

  /**
   * One pass of the do-while loop and all that follow it, from the page counter standing at
   * `page`: the active checks are performed, then the loop goes on while checks remain, the
   * counter is below the bound and `nextPage` succeeds, in that order.
   */
  function Pages<T>(c: RunConfig<T>, target: T, active: seq<nat>, page: int): Trace<T>
    decreases c.pageCount - page
  {
    match PageVerdicts(c.verdict, active, target)
    case Failure(t) => Trace([], [], [], 0, target, Some(t))
    case Success(v) =>
      var remaining := Remaining(c.lazy, active, v);
      if |remaining| == 0 || page + 1 >= c.pageCount then Cons(target, active, v, Trace([], [], [], 0, target, None))
      else if !c.nextPage(target).0 then Cons(target, active, v, Trace([], [], [], 1, c.nextPage(target).1, None))
      else Cons(target, active, v, Turned(Pages(c, c.nextPage(target).1, remaining, page + 1)))
  }

  /** The run from the start: every registered check active, the counter at zero. */
  function RunSpec<T>(c: RunConfig<T>, target: T): Trace<T>
  {
    Pages(c, target, Range(c.checkCount), 0)
  }

  /** Handing a completed page, and the call of `nextPage` after it, over from the rest of a run to its prefix. */
  lemma JoinStep<T>(done: Trace<T>, here: T, active: seq<nat>, v: seq<bool>, rest: Trace<T>)
    ensures Join(done, Cons(here, active, v, Turned(rest))) ==
            Join(Trace(done.pages + [here], done.visits + [active], done.verdicts + [v], done.turns + 1, here, None), rest)
  {
    assert done.pages + ([here] + rest.pages) == (done.pages + [here]) + rest.pages;
    assert done.visits + ([active] + rest.visits) == (done.visits + [active]) + rest.visits;
    assert done.verdicts + ([v] + rest.verdicts) == (done.verdicts + [v]) + rest.verdicts;
  }

  /** Every performed position, page after page. */
  function Concat(visits: seq<seq<nat>>): seq<nat>
    decreases |visits|
  {
    if |visits| == 0 then [] else Concat(visits[..|visits| - 1]) + visits[|visits| - 1]
  }

  lemma ConcatSnoc(visits: seq<seq<nat>>, v: seq<nat>)
    ensures Concat(visits + [v]) == Concat(visits) + v
  {
    assert (visits + [v])[..|visits|] == visits;
  }

  /**
   * One pass of `Pages`: a page that throws ends the trace with nothing recorded; otherwise
   * the page is recorded, and the run goes on from the next page exactly when `GoesOn` holds.
   */
  lemma PagesStep<T>(c: RunConfig<T>, target: T, active: seq<nat>, page: int)
    ensures var pv := PageVerdicts(c.verdict, active, target);
      pv.Failure? ==> Pages(c, target, active, page) == Trace([], [], [], 0, target, Some(pv.error))
    ensures var pv := PageVerdicts(c.verdict, active, target);
      pv.Success? && !GoesOn(c, target, active, page) ==>
        var tr := Pages(c, target, active, page);
        && tr.pages == [target] && tr.visits == [active] && tr.verdicts == [pv.value] && tr.crash.None?
        && tr.turns == (if |Remaining(c.lazy, active, pv.value)| > 0 && page + 1 < c.pageCount then 1 else 0)
    ensures GoesOn(c, target, active, page) ==>
      var v := PageVerdicts(c.verdict, active, target).value;
      var rest := Pages(c, c.nextPage(target).1, Remaining(c.lazy, active, v), page + 1);
      Pages(c, target, active, page) == Cons(target, active, v, Turned(rest))
  {
  }

  /** A pass after which the loop goes on: its page heads the rest of the run. */
  lemma PagesOn<T>(c: RunConfig<T>, target: T, active: seq<nat>, page: int)
    requires GoesOn(c, target, active, page)
    ensures var v := PageVerdicts(c.verdict, active, target).value;
      var rest := Pages(c, c.nextPage(target).1, Remaining(c.lazy, active, v), page + 1);
      var tr := Pages(c, target, active, page);
      && tr.pages == [target] + rest.pages && tr.visits == [active] + rest.visits && tr.verdicts == [v] + rest.verdicts
      && tr.turns == rest.turns + 1 && tr.target == rest.target && tr.crash == rest.crash
  {
  }

  /** A pass after which the loop stops: the page is all of the run, or nothing is when it throws. */
  lemma PagesOff<T>(c: RunConfig<T>, target: T, active: seq<nat>, page: int)
    requires !GoesOn(c, target, active, page)
    ensures var pv := PageVerdicts(c.verdict, active, target);
      var tr := Pages(c, target, active, page);
      && (pv.Failure? ==> tr.pages == [] && tr.visits == [] && tr.verdicts == [] && tr.crash == Some(pv.error))
      && (pv.Success? ==> tr.pages == [target] && tr.visits == [active] && tr.verdicts == [pv.value] && tr.crash.None?)
  {
  }

  /**
   * The trace is well formed: one state and one list of verdicts per visited page, the
   * verdicts being those of the checks performed there; the first page performs the active
   * list the run started from, on the state it started from, and each later page is on the
   * state a successful `nextPage` moved the target to.
   */
  lemma {:induction false} PagesWellFormed<T>(c: RunConfig<T>, target: T, active: seq<nat>, page: int)
    ensures var tr := Pages(c, target, active, page);
      && |tr.pages| == |tr.visits| == |tr.verdicts|
      && (|tr.visits| > 0 ==> tr.visits[0] == active && tr.pages[0] == target)
      && (forall p :: 0 <= p < |tr.visits| ==>
            PageVerdicts(c.verdict, tr.visits[p], tr.pages[p]) == Success(tr.verdicts[p]))
      && (forall p :: 0 <= p < |tr.visits| - 1 ==>
            c.nextPage(tr.pages[p]).0 && c.nextPage(tr.pages[p]).1 == tr.pages[p + 1])
    decreases c.pageCount - page, 1
  {
    if GoesOn(c, target, active, page) {
      PagesWellFormedOn(c, target, active, page);
    } else {
      PagesOff(c, target, active, page);
    }
  }

  /** The case of `PagesWellFormed` where the run goes on to a further page. */
  lemma {:induction false} PagesWellFormedOn<T>(c: RunConfig<T>, target: T, active: seq<nat>, page: int)
    requires GoesOn(c, target, active, page)
    ensures var tr := Pages(c, target, active, page);
      && |tr.pages| == |tr.visits| == |tr.verdicts|
      && (|tr.visits| > 0 ==> tr.visits[0] == active && tr.pages[0] == target)
      && (forall p :: 0 <= p < |tr.visits| ==>
            PageVerdicts(c.verdict, tr.visits[p], tr.pages[p]) == Success(tr.verdicts[p]))
      && (forall p :: 0 <= p < |tr.visits| - 1 ==>
            c.nextPage(tr.pages[p]).0 && c.nextPage(tr.pages[p]).1 == tr.pages[p + 1])
    decreases c.pageCount - page, 0
  {
    PagesOn(c, target, active, page);
    var v := PageVerdicts(c.verdict, active, target).value;
    var next := c.nextPage(target).1;
    var remaining := Remaining(c.lazy, active, v);
    PagesWellFormed(c, next, remaining, page + 1);
    var rest := Pages(c, next, remaining, page + 1);
    WellFormedCons(c, target, active, v, rest.pages, rest.visits, rest.verdicts);
  }

  /** A page that passes, and after which `nextPage` leads to the first page of a well formed run, extends it. */
  lemma WellFormedCons<T>(c: RunConfig<T>, target: T, active: seq<nat>, v: seq<bool>,
                          pages: seq<T>, visits: seq<seq<nat>>, verdicts: seq<seq<bool>>)
    requires PageVerdicts(c.verdict, active, target) == Success(v)
    requires |pages| == |visits| == |verdicts|
    requires |visits| > 0 ==> c.nextPage(target).0 && c.nextPage(target).1 == pages[0]
    requires forall p :: 0 <= p < |visits| ==> PageVerdicts(c.verdict, visits[p], pages[p]) == Success(verdicts[p])
    requires forall p :: 0 <= p < |visits| - 1 ==> c.nextPage(pages[p]).0 && c.nextPage(pages[p]).1 == pages[p + 1]
    ensures var ps, vs, ws := [target] + pages, [active] + visits, [v] + verdicts;
      && (forall p :: 0 <= p < |vs| ==> PageVerdicts(c.verdict, vs[p], ps[p]) == Success(ws[p]))
      && (forall p :: 0 <= p < |vs| - 1 ==> c.nextPage(ps[p]).0 && c.nextPage(ps[p]).1 == ps[p + 1])
  {
    var ps, vs, ws := [target] + pages, [active] + visits, [v] + verdicts;
    forall p | 0 < p < |vs|
      ensures vs[p] == visits[p - 1] && ps[p] == pages[p - 1] && ws[p] == verdicts[p - 1]
    {
    }
  }

  /**
   * The page bound: a run that throws nothing visits at least one page, and no run visits
   * more than `max(1, pageCount)` pages. `nextPage` is called after every visited page but
   * the last, and after the last one only when checks remained and the counter was below the
   * bound; so it is never called once the counter has reached the bound.
   */
  lemma {:induction false} PagesBound<T>(c: RunConfig<T>, target: T, active: seq<nat>, page: int)
    ensures var tr := Pages(c, target, active, page);
      && (tr.crash.None? ==> |tr.visits| >= 1)
      && |tr.visits| <= Max(1, c.pageCount - page)
      && (tr.crash.None? ==> |tr.visits| - 1 <= tr.turns <= |tr.visits|)
      && (tr.crash.Some? ==> tr.turns == |tr.visits|)
      && tr.turns <= Max(0, c.pageCount - page - 1)
    decreases c.pageCount - page
  {
    PagesStep(c, target, active, page);
    if GoesOn(c, target, active, page) {
      var v := PageVerdicts(c.verdict, active, target).value;
      PagesBound(c, c.nextPage(target).1, Remaining(c.lazy, active, v), page + 1);
    }
  }

  /** The first page of a trace performs the active list it started from, on the state it started from. */
  lemma PagesStart<T>(c: RunConfig<T>, target: T, active: seq<nat>, page: int)
    ensures var tr := Pages(c, target, active, page);
      |tr.visits| > 0 ==> tr.visits[0] == active && tr.pages[0] == target
  {
    PagesStep(c, target, active, page);
  }

  /** One state and one list of verdicts per visited page. */
  lemma {:induction false} PagesLengths<T>(c: RunConfig<T>, target: T, active: seq<nat>, page: int)
    ensures var tr := Pages(c, target, active, page);
      |tr.pages| == |tr.visits| == |tr.verdicts|
    decreases c.pageCount - page
  {
    PagesStep(c, target, active, page);
    if GoesOn(c, target, active, page) {
      var v := PageVerdicts(c.verdict, active, target).value;
      PagesLengths(c, c.nextPage(target).1, Remaining(c.lazy, active, v), page + 1);
    }
  }

  /**
   * Lazy mode: each page after the first performs exactly the checks of the page before
   * that did not fail there, and the run stops after a page on which no check survived.
   */
  lemma {:induction false} LazyPruning<T>(c: RunConfig<T>, target: T, active: seq<nat>, page: int)
    requires c.lazy
    ensures var tr := Pages(c, target, active, page);
      |tr.verdicts| == |tr.visits| && forall p :: 0 <= p < |tr.visits| ==> |tr.verdicts[p]| == |tr.visits[p]|
    ensures var tr := Pages(c, target, active, page);
      forall p :: 0 < p < |tr.visits| ==> tr.visits[p] == Survivors(tr.visits[p - 1], tr.verdicts[p - 1]) && tr.visits[p] != []
    decreases c.pageCount - page, 1
  {
    if GoesOn(c, target, active, page) {
      LazyPruningOn(c, target, active, page);
    } else {
      PagesOff(c, target, active, page);
    }
  }

  /** The case of `LazyPruning` where the run goes on to a further page. */
  lemma {:induction false} LazyPruningOn<T>(c: RunConfig<T>, target: T, active: seq<nat>, page: int)
    requires c.lazy && GoesOn(c, target, active, page)
    ensures var tr := Pages(c, target, active, page);
      |tr.verdicts| == |tr.visits| && forall p :: 0 <= p < |tr.visits| ==> |tr.verdicts[p]| == |tr.visits[p]|
    ensures var tr := Pages(c, target, active, page);
      forall p :: 0 < p < |tr.visits| ==> tr.visits[p] == Survivors(tr.visits[p - 1], tr.verdicts[p - 1]) && tr.visits[p] != []
    decreases c.pageCount - page, 0
  {
    PagesOn(c, target, active, page);
    var v := PageVerdicts(c.verdict, active, target).value;
    var next := c.nextPage(target).1;
    var remaining := Survivors(active, v);
    LazyPruning(c, next, remaining, page + 1);
    PagesStart(c, next, remaining, page + 1);
    var rest := Pages(c, next, remaining, page + 1);
    PrunedCons(active, v, rest.visits, rest.verdicts);
  }

  /** A page whose survivors head a lazily pruned run of pages extends it. */
  lemma PrunedCons(active: seq<nat>, v: seq<bool>, visits: seq<seq<nat>>, verdicts: seq<seq<bool>>)
    requires |v| == |active| && |verdicts| == |visits|
    requires forall p :: 0 <= p < |visits| ==> |verdicts[p]| == |visits[p]|
    requires forall p :: 0 < p < |visits| ==> visits[p] == Survivors(visits[p - 1], verdicts[p - 1]) && visits[p] != []
    requires |visits| > 0 ==> visits[0] == Survivors(active, v) && visits[0] != []
    ensures var vs, ws := [active] + visits, [v] + verdicts;
      |ws| == |vs| && forall p :: 0 <= p < |vs| ==> |ws[p]| == |vs[p]|
    ensures var vs, ws := [active] + visits, [v] + verdicts;
      forall p :: 0 < p < |vs| ==> vs[p] == Survivors(vs[p - 1], ws[p - 1]) && vs[p] != []
  {
    var vs, ws := [active] + visits, [v] + verdicts;
    forall p | 0 < p < |vs|
      ensures vs[p] == visits[p - 1] && ws[p] == verdicts[p - 1]
    {
    }
  }

  /** Every page of `visits` performs its checks in registration order. */
  ghost predicate InRegistrationOrder(visits: seq<seq<nat>>)
  {
    forall p :: 0 <= p < |visits| ==> StrictlyIncreasing(visits[p])
  }

  lemma InRegistrationOrderCons(active: seq<nat>, rest: seq<seq<nat>>)
    requires StrictlyIncreasing(active) && InRegistrationOrder(rest)
    ensures InRegistrationOrder([active] + rest)
  {
    forall p | 0 < p < |[active] + rest|
      ensures StrictlyIncreasing(([active] + rest)[p])
    {
      assert ([active] + rest)[p] == rest[p - 1];
    }
  }

  /** Lazy mode, starting from checks in registration order: every page performs its checks in that order. */
  lemma {:induction false} LazyKeepsRegistrationOrder<T>(c: RunConfig<T>, target: T, active: seq<nat>, page: int)
    requires c.lazy && StrictlyIncreasing(active)
    ensures InRegistrationOrder(Pages(c, target, active, page).visits)
    decreases c.pageCount - page, 1
  {
    if GoesOn(c, target, active, page) {
      LazyKeepsRegistrationOrderOn(c, target, active, page);
    } else {
      PagesOff(c, target, active, page);
      InRegistrationOrderCons(active, []);
      assert [active] + [] == [active];
    }
  }

  /** The case of `LazyKeepsRegistrationOrder` where the run goes on to a further page. */
  lemma {:induction false} LazyKeepsRegistrationOrderOn<T>(c: RunConfig<T>, target: T, active: seq<nat>, page: int)
    requires c.lazy && StrictlyIncreasing(active) && GoesOn(c, target, active, page)
    ensures InRegistrationOrder(Pages(c, target, active, page).visits)
    decreases c.pageCount - page, 0
  {
    PagesOn(c, target, active, page);
    var v := PageVerdicts(c.verdict, active, target).value;
    var remaining := Survivors(active, v);
    SurvivorsInOrder(active, v);
    LazyKeepsRegistrationOrder(c, c.nextPage(target).1, remaining, page + 1);
    InRegistrationOrderCons(active, Pages(c, c.nextPage(target).1, remaining, page + 1).visits);
  }

  /** Every check performed on the pages of `visits` is one of `active`. */
  ghost predicate WithinAll(visits: seq<seq<nat>>, active: seq<nat>)
  {
    forall p, m :: 0 <= p < |visits| && 0 <= m < |visits[p]| ==> visits[p][m] in active
  }

  /** The check at position `x` is performed on none of the pages of `visits`. */
  ghost predicate NeverPerformed(x: nat, visits: seq<seq<nat>>)
  {
    forall q :: 0 <= q < |visits| ==> x !in visits[q]
  }

  lemma NeverPerformedOutside(x: nat, visits: seq<seq<nat>>, active: seq<nat>)
    requires WithinAll(visits, active) && x !in active
    ensures NeverPerformed(x, visits)
  {
  }

  /** Pages that perform only survivors of lazy removal perform none of the checks that failed. */
  lemma FailedNotAmongSurvivors(active: seq<nat>, verdicts: seq<bool>, later: seq<seq<nat>>)
    requires |verdicts| == |active| && StrictlyIncreasing(active)
    requires WithinAll(later, Survivors(active, verdicts))
    ensures forall k :: 0 <= k < |active| && verdicts[k] ==> NeverPerformed(active[k], later)
  {
    SurvivorsInOrder(active, verdicts);
    forall k | 0 <= k < |active| && verdicts[k]
      ensures NeverPerformed(active[k], later)
    {
      NeverPerformedOutside(active[k], later, Survivors(active, verdicts));
    }
  }

  /** Every check a page performs was active when the run (or the rest of it) began. */
  lemma {:induction false} VisitsStayWithinStart<T>(c: RunConfig<T>, target: T, active: seq<nat>, page: int)
    ensures WithinAll(Pages(c, target, active, page).visits, active)
    decreases c.pageCount - page
  {
    PagesStep(c, target, active, page);
    var tr := Pages(c, target, active, page);
    if GoesOn(c, target, active, page) {
      var v := PageVerdicts(c.verdict, active, target).value;
      var next := c.nextPage(target).1;
      var remaining := Remaining(c.lazy, active, v);
      VisitsStayWithinStart(c, next, remaining, page + 1);
      var rest := Pages(c, next, remaining, page + 1);
      assert tr.visits == [active] + rest.visits;
      forall p, m | 0 < p < |tr.visits| && 0 <= m < |tr.visits[p]|
        ensures tr.visits[p][m] in active
      {
        assert tr.visits[p] == rest.visits[p - 1];
        assert tr.visits[p][m] in remaining;
      }
    }
  }

  /** Lazy mode: a check that failed on the first page of a trace is performed on no later page. */
  lemma FailedFirstNeverRetried<T>(c: RunConfig<T>, target: T, active: seq<nat>, page: int)
    requires c.lazy && StrictlyIncreasing(active) && PageVerdicts(c.verdict, active, target).Success?
    ensures var tr := Pages(c, target, active, page);
      var v := PageVerdicts(c.verdict, active, target).value;
      |tr.visits| > 0 && forall k :: 0 <= k < |active| && v[k] ==> NeverPerformed(active[k], tr.visits[1..])
  {
    PagesStep(c, target, active, page);
    var tr := Pages(c, target, active, page);
    var v := PageVerdicts(c.verdict, active, target).value;
    if GoesOn(c, target, active, page) {
      var next := c.nextPage(target).1;
      var remaining := Survivors(active, v);
      SurvivorsInOrder(active, v);
      VisitsStayWithinStart(c, next, remaining, page + 1);
      var rest := Pages(c, next, remaining, page + 1);
      assert tr.visits[1..] == rest.visits;
      FailedNotAmongSurvivors(active, v, rest.visits);
    } else {
      assert tr.visits[1..] == [];
    }
  }

  /** A check that failed on a page of `visits` is performed on none of the pages after it. */
  ghost predicate FailedNeverRetried(visits: seq<seq<nat>>, verdicts: seq<seq<bool>>)
  {
    forall p, k :: 0 <= p < |visits| && p < |verdicts| && 0 <= k < |visits[p]| && k < |verdicts[p]| && verdicts[p][k]
      ==> NeverPerformed(visits[p][k], visits[p + 1..])
  }

  lemma FailedNeverRetriedCons(active: seq<nat>, v: seq<bool>, visits: seq<seq<nat>>, verdicts: seq<seq<bool>>)
    requires forall k :: 0 <= k < |active| && k < |v| && v[k] ==> NeverPerformed(active[k], visits)
    requires FailedNeverRetried(visits, verdicts)
    ensures FailedNeverRetried([active] + visits, [v] + verdicts)
  {
    var vs, ws := [active] + visits, [v] + verdicts;
    forall p, k | 0 <= p < |vs| && p < |ws| && 0 <= k < |vs[p]| && k < |ws[p]| && ws[p][k]
      ensures NeverPerformed(vs[p][k], vs[p + 1..])
    {
      if p == 0 {
        assert vs[1..] == visits;
      } else {
        assert vs[p] == visits[p - 1] && ws[p] == verdicts[p - 1];
        assert vs[p + 1..] == visits[p..];
      }
    }
  }

  /** Lazy mode: a check that failed on a page is performed on none of the pages after it. */
  lemma {:induction false} FailedCheckNeverRetried<T>(c: RunConfig<T>, target: T, active: seq<nat>, page: int)
    requires c.lazy && StrictlyIncreasing(active)
    ensures var tr := Pages(c, target, active, page);
      FailedNeverRetried(tr.visits, tr.verdicts)
    decreases c.pageCount - page, 1
  {
    PagesStep(c, target, active, page);
    var tr := Pages(c, target, active, page);
    if GoesOn(c, target, active, page) {
      FailedCheckNeverRetriedOn(c, target, active, page);
    } else if PageVerdicts(c.verdict, active, target).Success? {
      var v := PageVerdicts(c.verdict, active, target).value;
      assert tr.visits == [active] + [] && tr.verdicts == [v] + [];
      FailedNeverRetriedCons(active, v, [], []);
    }
  }

  /** The case of `FailedCheckNeverRetried` where the run goes on to a further page. */
  lemma {:induction false} FailedCheckNeverRetriedOn<T>(c: RunConfig<T>, target: T, active: seq<nat>, page: int)
    requires c.lazy && StrictlyIncreasing(active) && GoesOn(c, target, active, page)
    ensures var tr := Pages(c, target, active, page);
      FailedNeverRetried(tr.visits, tr.verdicts)
    decreases c.pageCount - page, 0
  {
    PagesStep(c, target, active, page);
    var tr := Pages(c, target, active, page);
    var v := PageVerdicts(c.verdict, active, target).value;
    FailedFirstNeverRetried(c, target, active, page);
    var next := c.nextPage(target).1;
    var remaining := Survivors(active, v);
    SurvivorsInOrder(active, v);
    FailedCheckNeverRetried(c, next, remaining, page + 1);
    var rest := Pages(c, next, remaining, page + 1);
    assert tr.visits == [active] + rest.visits && tr.verdicts == [v] + rest.verdicts;
    assert tr.visits[1..] == rest.visits;
    FailedNeverRetriedCons(active, v, rest.visits, rest.verdicts);
  }

  /** Eager mode: every page performs the whole active list it started from. */
  lemma {:induction false} EagerPerformsAll<T>(c: RunConfig<T>, target: T, active: seq<nat>, page: int)
    requires !c.lazy
    ensures var tr := Pages(c, target, active, page);
      forall p :: 0 <= p < |tr.visits| ==> tr.visits[p] == active
    decreases c.pageCount - page
  {
    PagesStep(c, target, active, page);
    var tr := Pages(c, target, active, page);
    if GoesOn(c, target, active, page) {
      var next := c.nextPage(target).1;
      EagerPerformsAll(c, next, active, page + 1);
      var rest := Pages(c, next, active, page + 1);
      forall p | 0 < p < |tr.visits|
        ensures tr.visits[p] == active
      {
        assert tr.visits[p] == rest.visits[p - 1];
      }
    }
  }

  /**
   * Eager mode on a target whose `nextPage` always succeeds: a run that throws nothing visits
   * exactly `max(1, pageCount)` pages.
   */
  lemma {:induction false} EagerVisitsEveryPage<T>(c: RunConfig<T>, target: T, active: seq<nat>, page: int)
    requires !c.lazy && |active| > 0
    requires forall t :: c.nextPage(t).0
    ensures var tr := Pages(c, target, active, page);
      tr.crash.None? ==> |tr.visits| == Max(1, c.pageCount - page)
    decreases c.pageCount - page
  {
    PagesStep(c, target, active, page);
    if GoesOn(c, target, active, page) {
      EagerVisitsEveryPage(c, c.nextPage(target).1, active, page + 1);
    }
  }

  lemma JoinNothing<T>(start: T, tr: Trace<T>)
    ensures Join(Trace([], [], [], 0, start, None), tr) == tr
  {
    assert [] + tr.pages == tr.pages && [] + tr.visits == tr.visits && [] + tr.verdicts == tr.verdicts;
  }

  /**
   * One pass of the do-while loop on its own: the page, if it does not throw, then the call
   * of `nextPage` when checks remain and the counter is below the bound.
   */
  function PageUnit<T>(c: RunConfig<T>, here: T, active: seq<nat>, page: int): Trace<T>
  {
    match PageVerdicts(c.verdict, active, here)
    case Failure(t) => Trace([], [], [], 0, here, Some(t))
    case Success(v) =>
      var calls := |Remaining(c.lazy, active, v)| > 0 && page + 1 < c.pageCount;
      Trace([here], [active], [v], if calls then 1 else 0, if calls then c.nextPage(here).1 else here, None)
  }

  /** A run is its first pass, followed, when the loop goes on, by the run from the next page. */
  lemma PagesSplit<T>(c: RunConfig<T>, here: T, active: seq<nat>, page: int)
    ensures !GoesOn(c, here, active, page) ==> Pages(c, here, active, page) == PageUnit(c, here, active, page)
    ensures GoesOn(c, here, active, page) ==>
      var remaining := Remaining(c.lazy, active, PageVerdicts(c.verdict, active, here).value);
      Pages(c, here, active, page) == Join(PageUnit(c, here, active, page), Pages(c, c.nextPage(here).1, remaining, page + 1))
  {
    PagesStep(c, here, active, page);
    var pv := PageVerdicts(c.verdict, active, here);
    if pv.Success? {
      var rest := Pages(c, c.nextPage(here).1, Remaining(c.lazy, active, pv.value), page + 1);
      assert [here] + [] == [here] && [active] + [] == [active] && [pv.value] + [] == [pv.value];
    }
  }

  /** A pass whose page throws records nothing and ends the run. */
  lemma PageUnitThrows<T>(c: RunConfig<T>, here: T, active: seq<nat>, page: int)
    requires PageVerdicts(c.verdict, active, here).Failure?
    ensures PageUnit(c, here, active, page) == Trace([], [], [], 0, here, Some(PageVerdicts(c.verdict, active, here).error))
    ensures !GoesOn(c, here, active, page)
  {
  }

  /** A pass whose page throws nothing and after which checks or pages run out records the page and ends the run. */
  lemma PageUnitStops<T>(c: RunConfig<T>, here: T, active: seq<nat>, page: int)
    requires PageVerdicts(c.verdict, active, here).Success?
    requires |Remaining(c.lazy, active, PageVerdicts(c.verdict, active, here).value)| == 0 || page + 1 >= c.pageCount
    ensures PageUnit(c, here, active, page) == Trace([here], [active], [PageVerdicts(c.verdict, active, here).value], 0, here, None)
    ensures !GoesOn(c, here, active, page)
  {
  }

  /**
   * A pass whose page throws nothing and after which checks remain below the bound records
   * the page and calls `nextPage`; the loop goes on exactly when that call succeeds.
   */
  lemma PageUnitTurns<T>(c: RunConfig<T>, here: T, active: seq<nat>, page: int)
    requires PageVerdicts(c.verdict, active, here).Success?
    requires |Remaining(c.lazy, active, PageVerdicts(c.verdict, active, here).value)| > 0 && page + 1 < c.pageCount
    ensures PageUnit(c, here, active, page) == Trace([here], [active], [PageVerdicts(c.verdict, active, here).value], 1, c.nextPage(here).1, None)
    ensures GoesOn(c, here, active, page) <==> c.nextPage(here).0
  {
  }

  lemma JoinAssoc<T>(a: Trace<T>, b: Trace<T>, c: Trace<T>)
    ensures Join(Join(a, b), c) == Join(a, Join(b, c))
  {
    assert (a.pages + b.pages) + c.pages == a.pages + (b.pages + c.pages);
    assert (a.visits + b.visits) + c.visits == a.visits + (b.visits + c.visits);
    assert (a.verdicts + b.verdicts) + c.verdicts == a.verdicts + (b.verdicts + c.verdicts);
  }

  lemma {:induction false} ConcatAppend(xs: seq<seq<nat>>, ys: seq<seq<nat>>)
    ensures Concat(xs + ys) == Concat(xs) + Concat(ys)
    decreases |ys|
  {
    if |ys| == 0 {
      assert xs + ys == xs;
    } else {
      var n := |ys| - 1;
      ConcatAppend(xs, ys[..n]);
      assert xs + ys == (xs + ys[..n]) + [ys[n]];
      assert ys == ys[..n] + [ys[n]];
      ConcatSnoc(xs + ys[..n], ys[n]);
      ConcatSnoc(ys[..n], ys[n]);
    }
  }

  /** The performs of a run's prefix and of its next pass, one after the other, are those of the two joined. */
  lemma JoinPerformed<T>(performed0: seq<nat>, done: Trace<T>, unit: Trace<T>)
    ensures (performed0 + Concat(done.visits)) + Concat(unit.visits) == performed0 + Concat(Join(done, unit).visits)
  {
    ConcatAppend(done.visits, unit.visits);
  }

  /** The last pass of the loop completes the run. */
  lemma RunStops<T>(c: RunConfig<T>, full: Trace<T>, done: Trace<T>, here: T, active: seq<nat>, page: int)
    requires full == Join(done, Pages(c, here, active, page)) && !GoesOn(c, here, active, page)
    ensures full == Join(done, PageUnit(c, here, active, page))
  {
    PagesSplit(c, here, active, page);
  }

  /** A pass after which the loop goes on moves from the rest of the run to its prefix. */
  lemma RunGoesOn<T>(c: RunConfig<T>, full: Trace<T>, done: Trace<T>, here: T, active: seq<nat>, page: int)
    requires full == Join(done, Pages(c, here, active, page)) && GoesOn(c, here, active, page)
    ensures var remaining := Remaining(c.lazy, active, PageVerdicts(c.verdict, active, here).value);
      full == Join(Join(done, PageUnit(c, here, active, page)), Pages(c, c.nextPage(here).1, remaining, page + 1))
  {
    PagesSplit(c, here, active, page);
    var remaining := Remaining(c.lazy, active, PageVerdicts(c.verdict, active, here).value);
    JoinAssoc(done, PageUnit(c, here, active, page), Pages(c, c.nextPage(here).1, remaining, page + 1));
  }

  /** The errors every check has collected, check after check in registration order. */
  function CollectedErrorsOf<T, E>(checks: seq<ElementsCheck<T, E>>): seq<Throwable>
    reads checks
    decreases |checks|
  {
    if |checks| == 0 then [] else CollectedErrorsOf(checks[..|checks| - 1]) + checks[|checks| - 1].collectedErrors
  }

  /** No check object is registered twice. */
  predicate Distinct<T, E>(checks: seq<ElementsCheck<T, E>>)
  {
    forall i, j :: 0 <= i < j < |checks| ==> checks[i] != checks[j]
  }

  /** What a perform of each registered check adds to its collected errors, in registration order. */
  function ErrorFunctions<T, E>(checks: seq<ElementsCheck<T, E>>): (r: seq<(T, int) -> seq<Throwable>>)
    ensures |r| == |checks|
    decreases |checks|
  {
    if |checks| == 0 then [] else ErrorFunctions(checks[..|checks| - 1]) + [checks[|checks| - 1].ErrorAt]
  }

  /** At position `k`, the error function of the check registered there. */
  lemma {:induction false} ErrorFunctionsAt<T, E>(checks: seq<ElementsCheck<T, E>>, k: nat)
    requires k < |checks|
    ensures ErrorFunctions(checks)[k] == checks[k].ErrorAt
    decreases |checks|
  {
    var n := |checks| - 1;
    if k < n {
      ErrorFunctionsAt(checks[..n], k);
    }
  }

  /** The error function `errs` holds for position `k`. */
  function ErrorFunctionAt<T>(errs: seq<(T, int) -> seq<Throwable>>, k: nat): (T, int) -> seq<Throwable>
    requires k < |errs|
  {
    errs[k]
  }

  /**
   * `errs` says what each registered check's perform adds to its collected errors. The link
   * to a check's `ErrorAt` is made only where `ErrorFunctionAt` is asked for that check.
   */
  ghost predicate AddsErrors<T, E>(errs: seq<(T, int) -> seq<Throwable>>, checks: seq<ElementsCheck<T, E>>)
  {
    && |errs| == |checks|
    && forall k: nat {:trigger ErrorFunctionAt(errs, k)} :: k < |checks| ==> ErrorFunctionAt(errs, k) == checks[k].ErrorAt
  }

  /** `ErrorFunctions` says what the registered checks add. */
  lemma ErrorFunctionsAdd<T, E>(checks: seq<ElementsCheck<T, E>>)
    ensures AddsErrors(ErrorFunctions(checks), checks)
  {
    forall k: nat | k < |checks|
      ensures ErrorFunctionAt(ErrorFunctions(checks), k) == checks[k].ErrorAt
    {
      ErrorFunctionsAt(checks, k);
    }
  }

  /** The state of every registered check, in registration order. */
  function StatesOf<T, E>(checks: seq<ElementsCheck<T, E>>): (r: seq<CheckState>)
    reads checks
    ensures |r| == |checks|
    decreases |checks|
  {
    if |checks| == 0 then []
    else
      var n := |checks| - 1;
      StatesOf(checks[..n]) + [CheckState(checks[n].checkNumber, checks[n].collectedErrors)]
  }

  /** Position by position, the states are the checks' counters and collected errors. */
  lemma {:induction false} StatesOfEach<T, E>(checks: seq<ElementsCheck<T, E>>)
    ensures forall k :: 0 <= k < |checks| ==> StatesOf(checks)[k] == CheckState(checks[k].checkNumber, checks[k].collectedErrors)
    decreases |checks|
  {
    if |checks| > 0 {
      var n := |checks| - 1;
      StatesOfEach(checks[..n]);
      assert forall k :: 0 <= k < n ==> checks[..n][k] == checks[k];
    }
  }

  /** The states after the check at position `k` is performed on `target`; the other checks keep theirs. */
  function Stepped<T>(errs: seq<(T, int) -> seq<Throwable>>, s: seq<CheckState>, k: nat, target: T): (r: seq<CheckState>)
    ensures |r| == |s|
  {
    if k < |s| && k < |errs| then s[k := After(errs[k], s[k], target)] else s
  }

  /**
   * Where one check has made a perform on `target` and every other check kept its state, the
   * checks' states are those `Stepped` gives.
   */
  lemma StatesAfterOnePerform<T, E>(checks: seq<ElementsCheck<T, E>>, before: seq<CheckState>, k: nat, target: T)
    requires k < |checks| == |before|
    requires CheckState(checks[k].checkNumber, checks[k].collectedErrors) == After(checks[k].ErrorAt, before[k], target)
    requires forall j :: 0 <= j < |checks| && j != k ==> before[j] == CheckState(checks[j].checkNumber, checks[j].collectedErrors)
    ensures StatesOf(checks) == Stepped(ErrorFunctions(checks), before, k, target)
  {
    ErrorFunctionsAt(checks, k);
    StatesOfEach(checks);
  }

  /** The states after the checks at the positions `active` are performed on `target`, one after another. */
  function PageStates<T>(errs: seq<(T, int) -> seq<Throwable>>, s: seq<CheckState>, active: seq<nat>, target: T): (r: seq<CheckState>)
    ensures |r| == |s|
    decreases |active|
  {
    if |active| == 0 then s
    else
      var n := |active| - 1;
      Stepped(errs, PageStates(errs, s, active[..n], target), active[n], target)
  }

  lemma PageStatesStep<T>(errs: seq<(T, int) -> seq<Throwable>>, s: seq<CheckState>, active: seq<nat>, i: nat, target: T)
    requires i < |active|
    ensures PageStates(errs, s, active[..i + 1], target) == Stepped(errs, PageStates(errs, s, active[..i], target), active[i], target)
  {
    assert active[..i + 1][..i] == active[..i];
  }

  /** The states after the pages `pages` are visited, with the checks `visits[p]` performed on page `p`. */
  function RunStates<T>(errs: seq<(T, int) -> seq<Throwable>>, s: seq<CheckState>, pages: seq<T>, visits: seq<seq<nat>>): (r: seq<CheckState>)
    ensures |r| == |s|
    decreases |pages|
  {
    if |pages| == 0 || |visits| == 0 then s
    else
      PageStates(errs, RunStates(errs, s, pages[..|pages| - 1], visits[..|visits| - 1]), visits[|visits| - 1], pages[|pages| - 1])
  }

  /** The states of the pages on which the check at position `k` is performed, in page order. */
  function TargetsOf<T>(k: nat, pages: seq<T>, visits: seq<seq<nat>>): (r: seq<T>)
    ensures |r| <= |pages|
    decreases |pages|
  {
    if |pages| == 0 || |visits| == 0 then []
    else
      TargetsOf(k, pages[..|pages| - 1], visits[..|visits| - 1]) + (if k in visits[|visits| - 1] then [pages[|pages| - 1]] else [])
  }

  /**
   * Performing the checks of a page, each at most once: a check performed there makes one
   * step on the page's state, every other check keeps its state.
   */
  lemma {:induction false} PageStatesOfCheck<T>(errs: seq<(T, int) -> seq<Throwable>>, s: seq<CheckState>, active: seq<nat>, target: T, k: nat)
    requires StrictlyIncreasing(active) && k < |s| == |errs|
    ensures PageStates(errs, s, active, target)[k] == if k in active then After(errs[k], s[k], target) else s[k]
    decreases |active|
  {
    if |active| > 0 {
      var n := |active| - 1;
      var init := active[..n];
      assert StrictlyIncreasing(init);
      PageStatesOfCheck(errs, s, init, target, k);
      assert active == init + [active[n]];
      assert active[n] !in init by {
        forall m | 0 <= m < n
          ensures init[m] < active[n]
        {
        }
      }
    }
  }

  lemma RunStatesSnoc<T>(errs: seq<(T, int) -> seq<Throwable>>, s: seq<CheckState>, pages: seq<T>, visits: seq<seq<nat>>, here: T, active: seq<nat>)
    ensures RunStates(errs, s, pages + [here], visits + [active]) == PageStates(errs, RunStates(errs, s, pages, visits), active, here)
  {
    assert (pages + [here])[..|pages|] == pages;
    assert (visits + [active])[..|visits|] == visits;
  }

  /** Visiting the pages of a run's prefix and then those of its next pass are visiting those of the two joined. */
  lemma {:induction false} RunStatesAppend<T>(errs: seq<(T, int) -> seq<Throwable>>, s: seq<CheckState>,
                                                  pages: seq<T>, visits: seq<seq<nat>>, pages': seq<T>, visits': seq<seq<nat>>)
    requires |pages| == |visits| && |pages'| == |visits'|
    ensures RunStates(errs, s, pages + pages', visits + visits') == RunStates(errs, RunStates(errs, s, pages, visits), pages', visits')
    decreases |pages'|
  {
    if |pages'| == 0 {
      assert pages + pages' == pages && visits + visits' == visits;
    } else {
      var n := |pages'| - 1;
      var ps, vs := pages'[..n], visits'[..n];
      var before := RunStates(errs, s, pages, visits);
      assert pages + pages' == (pages + ps) + [pages'[n]] && pages' == ps + [pages'[n]];
      assert visits + visits' == (visits + vs) + [visits'[n]] && visits' == vs + [visits'[n]];
      calc {
        RunStates(errs, s, pages + pages', visits + visits');
        { RunStatesSnoc(errs, s, pages + ps, visits + vs, pages'[n], visits'[n]); }
        PageStates(errs, RunStates(errs, s, pages + ps, visits + vs), visits'[n], pages'[n]);
        { RunStatesAppend(errs, s, pages, visits, ps, vs); }
        PageStates(errs, RunStates(errs, before, ps, vs), visits'[n], pages'[n]);
        { RunStatesSnoc(errs, before, ps, vs, pages'[n], visits'[n]); }
        RunStates(errs, before, pages', visits');
      }
    }
  }

  /**
   * Over pages that perform their checks in registration order, what happens to one check:
   * its counter goes up once per page that performs it, and it collects the errors of those
   * performs, page after page.
   */
  lemma {:induction false} RunStatesOfCheck<T>(errs: seq<(T, int) -> seq<Throwable>>, s: seq<CheckState>,
                                                   pages: seq<T>, visits: seq<seq<nat>>, k: nat)
    requires |pages| == |visits| && InRegistrationOrder(visits) && k < |s| == |errs|
    ensures var ts := TargetsOf(k, pages, visits);
      RunStates(errs, s, pages, visits)[k] ==
        CheckState(s[k].checkNumber + |ts|, s[k].collectedErrors + ErrorsOver(errs[k], s[k].checkNumber, ts))
    decreases |pages|
  {
    if |pages| > 0 {
      var n := |pages| - 1;
      var init, vinit := pages[..n], visits[..n];
      assert InRegistrationOrder(vinit) by {
        forall p | 0 <= p < |vinit|
          ensures StrictlyIncreasing(vinit[p])
        {
          assert vinit[p] == visits[p];
        }
      }
      RunStatesOfCheck(errs, s, init, vinit, k);
      var before := RunStates(errs, s, init, vinit);
      PageStatesOfCheck(errs, before, visits[n], pages[n], k);
      var ts := TargetsOf(k, init, vinit);
      assert RunStates(errs, s, pages, visits) == PageStates(errs, before, visits[n], pages[n]);
      if k in visits[n] {
        assert TargetsOf(k, pages, visits) == ts + [pages[n]];
        AfterExtends(errs[k], s[k], ts, pages[n]);
      } else {
        assert TargetsOf(k, pages, visits) == ts;
      }
    }
  }

  lemma {:induction false} TargetsOfCons<T>(k: nat, here: T, active: seq<nat>, pages: seq<T>, visits: seq<seq<nat>>)
    requires |pages| == |visits|
    ensures TargetsOf(k, [here] + pages, [active] + visits) == (if k in active then [here] else []) + TargetsOf(k, pages, visits)
    decreases |pages|
  {
    if |pages| == 0 {
      assert [here] + pages == [here] && [active] + visits == [active];
      assert [here][..0] == [];
    } else {
      var n := |pages| - 1;
      TargetsOfCons(k, here, active, pages[..n], visits[..n]);
      assert ([here] + pages)[..n + 1] == [here] + pages[..n];
      assert ([active] + visits)[..n + 1] == [active] + visits[..n];
    }
  }

  /** A check performed on none of the pages has no page state. */
  lemma {:induction false} TargetsOfNever<T>(k: nat, pages: seq<T>, visits: seq<seq<nat>>)
    requires NeverPerformed(k, visits)
    ensures TargetsOf(k, pages, visits) == []
    decreases |pages|
  {
    if |pages| > 0 && |visits| > 0 {
      TargetsOfNever(k, pages[..|pages| - 1], visits[..|visits| - 1]);
    }
  }

  /** A check performed on every page has every page's state, in order. */
  lemma {:induction false} TargetsOfEvery<T>(k: nat, pages: seq<T>, visits: seq<seq<nat>>)
    requires |pages| == |visits| && forall p :: 0 <= p < |visits| ==> k in visits[p]
    ensures TargetsOf(k, pages, visits) == pages
    decreases |pages|
  {
    if |pages| > 0 {
      var n := |pages| - 1;
      TargetsOfEvery(k, pages[..n], visits[..n]);
      assert pages == pages[..n] + [pages[n]];
    }
  }

  /** Starting from checks in registration order, in either mode every page performs its checks in that order. */
  lemma RunInRegistrationOrder<T>(c: RunConfig<T>, target: T, active: seq<nat>, page: int)
    requires StrictlyIncreasing(active)
    ensures InRegistrationOrder(Pages(c, target, active, page).visits)
  {
    if c.lazy {
      LazyKeepsRegistrationOrder(c, target, active, page);
    } else {
      EagerPerformsAll(c, target, active, page);
    }
  }

  /** Eager mode: an active check is performed on every page visited. */
  lemma EagerTargetsAreAllPages<T>(c: RunConfig<T>, target: T, active: seq<nat>, page: int, k: nat)
    requires !c.lazy && k in active
    ensures var tr := Pages(c, target, active, page);
      TargetsOf(k, tr.pages, tr.visits) == tr.pages
  {
    EagerPerformsAll(c, target, active, page);
    PagesLengths(c, target, active, page);
    var tr := Pages(c, target, active, page);
    TargetsOfEvery(k, tr.pages, tr.visits);
  }

  /** The verdicts of the check at position `k` on the states `ts` are passes, but perhaps the last. */
  ghost predicate FailsOnlyLast<T>(verdict: (nat, T) -> Result<bool, Throwable>, k: nat, ts: seq<T>)
  {
    forall i :: 0 <= i < |ts| - 1 ==> verdict(k, ts[i]) == Success(false)
  }

  /**
   * Lazy mode: a check passes on every page it is performed on but perhaps the last one, for
   * after a failure it is dropped.
   */
  lemma {:induction false} LazyFailsOnlyLast<T>(c: RunConfig<T>, target: T, active: seq<nat>, page: int, k: nat)
    requires c.lazy && StrictlyIncreasing(active)
    ensures var tr := Pages(c, target, active, page);
      FailsOnlyLast(c.verdict, k, TargetsOf(k, tr.pages, tr.visits))
    decreases c.pageCount - page, 1
  {
    if GoesOn(c, target, active, page) {
      LazyFailsOnlyLastOn(c, target, active, page, k);
    } else {
      PagesOff(c, target, active, page);
    }
  }

  /** The case of `LazyFailsOnlyLast` where the run goes on to a further page. */
  lemma {:induction false} LazyFailsOnlyLastOn<T>(c: RunConfig<T>, target: T, active: seq<nat>, page: int, k: nat)
    requires c.lazy && StrictlyIncreasing(active) && GoesOn(c, target, active, page)
    ensures var tr := Pages(c, target, active, page);
      FailsOnlyLast(c.verdict, k, TargetsOf(k, tr.pages, tr.visits))
    decreases c.pageCount - page, 0
  {
    PagesOn(c, target, active, page);
    var v := PageVerdicts(c.verdict, active, target).value;
    var next := c.nextPage(target).1;
    var remaining := Survivors(active, v);
    SurvivorsInOrder(active, v);
    LazyFailsOnlyLast(c, next, remaining, page + 1, k);
    PagesLengths(c, next, remaining, page + 1);
    var rest := Pages(c, next, remaining, page + 1);
    TargetsOfCons(k, target, active, rest.pages, rest.visits);
    var later := TargetsOf(k, rest.pages, rest.visits);
    if k in active {
      var m :| 0 <= m < |active| && active[m] == k;
      PageVerdictsAreTheOutcomes(c.verdict, active, target);
      assert c.verdict(k, target) == Success(v[m]);
      if v[m] {
        VisitsStayWithinStart(c, next, remaining, page + 1);
        NeverPerformedOutside(k, rest.visits, remaining);
        TargetsOfNever(k, rest.pages, rest.visits);
      }
    }
    FailsOnlyLastCons(c.verdict, k, target, k in active, later);
  }

  /** A page performing the check, or not, before later pages on which it fails only last. */
  lemma FailsOnlyLastCons<T>(verdict: (nat, T) -> Result<bool, Throwable>, k: nat, target: T, performed: bool, later: seq<T>)
    requires FailsOnlyLast(verdict, k, later)
    requires performed && later != [] ==> verdict(k, target) == Success(false)
    ensures FailsOnlyLast(verdict, k, (if performed then [target] else []) + later)
  {
    var ts := (if performed then [target] else []) + later;
    if performed {
      forall i | 0 <= i < |ts| - 1
        ensures verdict(k, ts[i]) == Success(false)
      {
        if i > 0 {
          assert ts[i] == later[i - 1];
        }
      }
    } else {
      assert ts == later;
    }
  }

  /**
   * The checks' states after a run that throws nothing, one check at a time: the counter has
   * gone up once per page that performed the check, the check has collected the errors of
   * those performs in page order, at most one of them in lazy mode, and in eager mode the check
   * was performed on every page visited.
   */
  lemma RunStatesPerCheck<T, E>(checks: seq<ElementsCheck<T, E>>, s: seq<CheckState>, c: RunConfig<T>, target: T, k: nat)
    requires c.checkCount == |checks| == |s| && c.verdict == Verdicts(checks) && k < |checks|
    ensures var tr := RunSpec(c, target);
      var ts := TargetsOf(k, tr.pages, tr.visits);
      var after := RunStates(ErrorFunctions(checks), s, tr.pages, tr.visits)[k];
      && after.checkNumber == s[k].checkNumber + |ts|
      && after.collectedErrors == s[k].collectedErrors + ErrorsOver(checks[k].ErrorAt, s[k].checkNumber, ts)
      && (c.lazy ==> |after.collectedErrors| <= |s[k].collectedErrors| + 1)
      && (!c.lazy ==> ts == tr.pages)
  {
    var all := Range(c.checkCount);
    RangeIncreases(c.checkCount);
    var tr := RunSpec(c, target);
    PagesLengths(c, target, all, 0);
    RunInRegistrationOrder(c, target, all, 0);
    RunStatesOfCheck(ErrorFunctions(checks), s, tr.pages, tr.visits, k);
    ErrorFunctionsAt(checks, k);
    var ts := TargetsOf(k, tr.pages, tr.visits);
    if c.lazy {
      LazyFailsOnlyLast(c, target, all, 0, k);
      forall i | 0 <= i < |ts| - 1
        ensures checks[k].Outcome(ts[i]) == Success(false)
      {
        assert c.verdict(k, ts[i]) == Success(false);
      }
      checks[k].ErrorsOverAtMostOne(s[k].checkNumber, ts);
    } else {
      assert all[k] == k;
      EagerTargetsAreAllPages(c, target, all, 0, k);
    }
  }

  class PageableChecker<T, E> {
    var errorList: seq<Throwable>
    var lazyMode: bool
    /** The state of the page object; `nextPage` moves it to the next page. */
    var target: T
    const nextPage: T -> (bool, T)
    var checkList: seq<ElementsCheck<T, E>>
    var pageCount: int
    /** Every perform made so far, as the position of the check in `checkList`, in order. */
    ghost var performed: seq<nat>
    /** How often `nextPage` has been called. */
    ghost var nextPageCalls: nat

    /** What a run from the current state depends on, besides the target's state. */
    function Config(): RunConfig<T>
      reads this`checkList, this`lazyMode, this`pageCount
    {
      RunConfig(|checkList|, Verdicts(checkList), nextPage, lazyMode, pageCount)
    }

    constructor(target: T, nextPage: T -> (bool, T))
      ensures this.target == target && this.nextPage == nextPage
      ensures errorList == [] && checkList == []
      ensures lazyMode && pageCount == DefaultPageCount
      ensures performed == [] && nextPageCalls == 0
    {
      this.target := target;
      this.nextPage := nextPage;
      errorList := [];
      lazyMode := true;
      checkList := [];
      pageCount := DefaultPageCount;
      performed := [];
      nextPageCalls := 0;
    }

    /** `beLazy`: lazy mode when `value` holds, eager mode otherwise. */
    method BeLazy(value: bool) returns (self: PageableChecker<T, E>)
      modifies this`lazyMode
      ensures lazyMode == value && self == this
    {
      lazyMode := value;
      return this;
    }

    /** `setPageCount`: the bound on the number of pages a run visits. */
    method SetPageCount(pageCount: int) returns (self: PageableChecker<T, E>)
      modifies this`pageCount
      ensures this.pageCount == pageCount && self == this
    {
      this.pageCount := pageCount;
      return this;
    }

    /** `addCheck`: a further check, after those already registered. */
    method AddCheck(check: ElementsCheck<T, E>) returns (self: PageableChecker<T, E>)
      modifies this`checkList
      ensures checkList == old(checkList) + [check] && self == this
    {
      checkList := checkList + [check];
      return this;
    }

    /**
     * The perform of the registered check at position `k` on the current page, logged: what
     * it threw, or whether it failed.
     */
    method PerformCheck(k: nat) returns (r: Result<bool, Throwable>)
      requires k < |checkList|
      modifies checkList[k], this`performed
      ensures r == checkList[k].Outcome(target) == Verdicts(checkList)(k, target)
      ensures performed == old(performed) + [k]
      ensures checkList[k].checkNumber == old(checkList[k].checkNumber) + 1
      ensures checkList[k].collectedErrors == old(checkList[k].collectedErrors) + ErrorOf(checkList[k].Evaluate(target, checkList[k].checkNumber))
      ensures Distinct(checkList) ==> StatesOf(checkList) == Stepped(ErrorFunctions(checkList), old(StatesOf(checkList)), k, target)
    {
      var check := checkList[k];
      ghost var before := StatesOf(checkList);
      StatesOfEach(checkList);
      var result := check.Perform(target);
      check.EvaluateAgreesWithOutcome(target, check.checkNumber);
      performed := performed + [k];
      if Distinct(checkList) {
        StatesAfterOnePerform(checkList, before, k, target);
      }
      if result.Failure? {
        return Failure(result.error);
      }
      return Success(result.value.isFailed);
    }

    /**
     * The `i`-th turn of the loop of `processPageCheck` on the page `page`, after the verdicts
     * `verdicts` of the first `i` active checks: the check is performed, then either what it
     * threw ends the page, or its verdict is noted and, in lazy mode, a failed check leaves
     * the active list.
     */
    method ProcessTurn(ghost verdict: (nat, T) -> Result<bool, Throwable>, ghost page: T, ghost performed0: seq<nat>,
                       ghost errs: seq<(T, int) -> seq<Throwable>>, ghost states0: seq<CheckState>, active: seq<nat>, i: nat, lazy: bool,
                       passed: bool, remaining: seq<nat>, ghost verdicts: seq<bool>)
      returns (result: Result<bool, Throwable>, passed': bool, remaining': seq<nat>, ghost verdicts': seq<bool>)
      requires DecidesOn(verdict, checkList, page) && page == target && AddsErrors(errs, checkList)
      requires i < |active| && ValidActive(active, |checkList|) && |verdicts| == i
      requires passed == (true !in verdicts) && remaining == Remaining(lazy, active[..i], verdicts)
      requires performed == performed0 + active[..i]
      requires Distinct(checkList) ==> StatesOf(checkList) == PageStates(errs, states0, active[..i], page)
      modifies checkList[active[i]], this`performed
      ensures result.Failure? ==> Prepend(verdicts, PageVerdicts(verdict, active[i..], page)) == Failure(WrappedException(result.error))
      ensures result.Success? ==>
        && Prepend(verdicts, PageVerdicts(verdict, active[i..], page)) == Prepend(verdicts', PageVerdicts(verdict, active[i + 1..], page))
        && |verdicts'| == i + 1 && passed' == (true !in verdicts')
        && remaining' == Remaining(lazy, active[..i + 1], verdicts')
      ensures performed == performed0 + active[..i + 1]
      ensures Distinct(checkList) ==> StatesOf(checkList) == PageStates(errs, states0, active[..i + 1], page)
    {
      result := PerformCheck(active[i]);
      assert ErrorFunctionAt(errs, active[i]) == checkList[active[i]].ErrorAt;
      ErrorFunctionsAt(checkList, active[i]);
      ProcessStep(verdict, active, page, lazy, i, verdicts);
      PageStatesStep(errs, states0, active, i, page);
      passed', remaining', verdicts' := passed, remaining, verdicts;
      if result.Success? {
        var failed := result.value;
        verdicts' := verdicts + [failed];
        if failed {
          passed' := false;
        }
        if !(lazy && failed) {
          remaining' := remaining + [active[i]];
        }
      }
    }

    /**
     * `processPageCheck`: performs the active checks in order on the current page; whether
     * the page passed, and the active list with, in lazy mode, the failed checks removed.
     */
    method ProcessPageCheck(active: seq<nat>) returns (r: Result<(bool, seq<nat>), Throwable>)
      requires ValidActive(active, |checkList|)
      modifies checkList, this`performed
      ensures r == ProcessedPage(Verdicts(checkList), active, target, lazyMode)
      ensures r.Success? ==> performed == old(performed) + active
      ensures r.Success? && Distinct(checkList) ==> StatesOf(checkList) == PageStates(ErrorFunctions(checkList), old(StatesOf(checkList)), active, target)
    {
      VerdictsDecide(checkList, target);
      ErrorFunctionsAdd(checkList);
      r := ProcessActive(Verdicts(checkList), ErrorFunctions(checkList), StatesOf(checkList), target, active, lazyMode);
    }

    /**
     * The loop of `processPageCheck` over the active checks on the page `page`, where
     * `verdict` and `errs` say what each registered check decides and adds to its errors, and
     * `states0` holds the checks' states before the page.
     */
    method ProcessActive(ghost verdict: (nat, T) -> Result<bool, Throwable>, ghost errs: seq<(T, int) -> seq<Throwable>>,
                         ghost states0: seq<CheckState>, ghost page: T, active: seq<nat>, lazy: bool)
      returns (r: Result<(bool, seq<nat>), Throwable>)
      requires DecidesOn(verdict, checkList, page) && AddsErrors(errs, checkList) && page == target
      requires ValidActive(active, |checkList|) && states0 == StatesOf(checkList)
      modifies checkList, this`performed
      ensures r == ProcessedPage(verdict, active, page, lazy)
      ensures r.Success? ==> performed == old(performed) + active
      ensures r.Success? && Distinct(checkList) ==> StatesOf(checkList) == PageStates(errs, states0, active, page)
    {
      var passed := true;
      var remaining: seq<nat> := [];
      ghost var verdicts: seq<bool> := [];
      var i := 0;
      assert active[0..] == active;
      PrependNothing(PageVerdicts(verdict, active, page));
      while i < |active|
        invariant 0 <= i <= |active| && |verdicts| == i
        invariant PageVerdicts(verdict, active, page) == Prepend(verdicts, PageVerdicts(verdict, active[i..], page))
        invariant passed == (true !in verdicts)
        invariant remaining == Remaining(lazy, active[..i], verdicts)
        invariant performed == old(performed) + active[..i]
        invariant Distinct(checkList) ==> StatesOf(checkList) == PageStates(errs, states0, active[..i], page)
      {
        var result;
        result, passed, remaining, verdicts := ProcessTurn(verdict, page, old(performed), errs, states0, active, i, lazy, passed, remaining, verdicts);
        if result.Failure? {
          return Failure(WrappedException(result.error));
        }
        i := i + 1;
      }
      assert active[..i] == active && active[i..] == [];
      assert verdicts + [] == verdicts;
      assert PageVerdicts(verdict, active, page) == Success(verdicts);
      return Success((passed, remaining));
    }

    /**
     * `runWithoutThrowing`: an empty check list throws before anything is performed;
     * otherwise the do-while loop over pages follows `RunSpec`.
     */
    method RunWithoutThrowing() returns (r: Outcome<Throwable>)
      modifies checkList, this`target, this`performed, this`nextPageCalls
      ensures |checkList| == 0 ==> r == Fail(RuntimeException(EmptyChecklistMessage))
      ensures |checkList| == 0 ==> target == old(target) && performed == old(performed) && nextPageCalls == old(nextPageCalls)
      ensures |checkList| == 0 ==> StatesOf(checkList) == old(StatesOf(checkList))
      ensures |checkList| > 0 ==> Follows(RunSpec(Config(), old(target)), r, old(performed), old(nextPageCalls), old(StatesOf(checkList)))
    {
      if |checkList| == 0 {
        return Fail(RuntimeException(EmptyChecklistMessage));
      }
      r := RunPages();
    }

    /**
     * The state after the run `tr`, which ended with `r`, from `performed0` performs, `calls0`
     * calls of `nextPage` and the checks in the states `states0`.
     */
    ghost predicate Follows(tr: Trace<T>, r: Outcome<Throwable>, performed0: seq<nat>, calls0: nat, states0: seq<CheckState>)
      reads this`target, this`performed, this`nextPageCalls, this`checkList, checkList
    {
      && target == tr.target
      && r == (if tr.crash.Some? then Fail(tr.crash.value) else Pass)
      && nextPageCalls == calls0 + tr.turns
      && (tr.crash.None? ==> performed == performed0 + Concat(tr.visits))
      && (tr.crash.None? && Distinct(checkList) ==> StatesOf(checkList) == RunStates(ErrorFunctions(checkList), states0, tr.pages, tr.visits))
    }

    /**
     * One pass of the do-while loop of `runWithoutThrowing`, with the counter at `page`: the
     * active checks are performed on the current page, then, when checks remain and the
     * counter is below the bound, `nextPage` is called; whether the loop goes on, and the
     * active list for the next page.
     */
    method VisitPage(ghost cfg: RunConfig<T>, active: seq<nat>, page: int) returns (r: Outcome<Throwable>, goOn: bool, next: seq<nat>)
      requires cfg == Config() && ValidActive(active, |checkList|)
      modifies checkList, this`target, this`performed, this`nextPageCalls
      ensures Follows(PageUnit(cfg, old(target), active, page), r, old(performed), old(nextPageCalls), old(StatesOf(checkList)))
      ensures goOn == GoesOn(cfg, old(target), active, page)
      ensures goOn ==> next == Remaining(cfg.lazy, active, PageVerdicts(cfg.verdict, active, old(target)).value)
      ensures ValidActive(next, |checkList|)
    {
      var outcome := ProcessPageCheck(active);
      if outcome.Failure? {
        PageUnitThrows(cfg, target, active, page);
        return Fail(outcome.error), false, [];
      }
      next := outcome.value.1;
      SurvivorsValid(active, PageVerdicts(cfg.verdict, active, target).value, |checkList|);
      goOn := FinishPass(cfg, old(performed), old(StatesOf(checkList)), active, page, next);
      r := Pass;
    }

    /**
     * The end of a pass whose page threw nothing: when checks remain and the counter is below
     * the bound, `nextPage` is called and decides whether the loop goes on; otherwise it stops.
     */
    method FinishPass(ghost cfg: RunConfig<T>, ghost performed0: seq<nat>, ghost states0: seq<CheckState>,
                      active: seq<nat>, page: int, next: seq<nat>) returns (goOn: bool)
      requires cfg == Config() && PageVerdicts(cfg.verdict, active, target).Success?
      requires next == Remaining(cfg.lazy, active, PageVerdicts(cfg.verdict, active, target).value)
      requires performed == performed0 + active
      requires Distinct(checkList) ==> StatesOf(checkList) == PageStates(ErrorFunctions(checkList), states0, active, target)
      modifies this`target, this`nextPageCalls
      ensures Follows(PageUnit(cfg, old(target), active, page), Pass, performed0, old(nextPageCalls), states0)
      ensures goOn == GoesOn(cfg, old(target), active, page)
    {
      assert Concat([active]) == active by {
        ConcatSnoc([], active);
      }
      assert RunStates(ErrorFunctions(checkList), states0, [target], [active]) == PageStates(ErrorFunctions(checkList), states0, active, target) by {
        RunStatesSnoc(ErrorFunctions(checkList), states0, [], [], target, active);
      }
      if |next| == 0 || page + 1 >= pageCount {
        PageUnitStops(cfg, target, active, page);
        return false;
      }
      PageUnitTurns(cfg, target, active, page);
      var step := nextPage(target);
      target := step.1;
      nextPageCalls := nextPageCalls + 1;
      return step.0;
    }

    /** The do-while loop of `runWithoutThrowing`, over a non-empty check list. */
    method RunPages() returns (r: Outcome<Throwable>)
      requires |checkList| > 0
      modifies checkList, this`target, this`performed, this`nextPageCalls
      ensures Follows(RunSpec(Config(), old(target)), r, old(performed), old(nextPageCalls), old(StatesOf(checkList)))
    {
      ghost var cfg := Config();
      ghost var states0 := StatesOf(checkList);
      ghost var full := RunSpec(cfg, target);
      MidwayAtStart(cfg, full, states0);
      r := RunFrom(cfg, full, states0);
    }

    /** The passes of the do-while loop, from the first page on, make the run `full`. */
    method RunFrom(ghost cfg: RunConfig<T>, ghost full: Trace<T>, ghost states0: seq<CheckState>) returns (r: Outcome<Throwable>)
      requires cfg == Config()
      requires Midway(cfg, full, Trace([], [], [], 0, target, None), performed, nextPageCalls, states0, Range(|checkList|), 0)
      modifies checkList, this`target, this`performed, this`nextPageCalls
      ensures Follows(full, r, old(performed), old(nextPageCalls), states0)
    {
      var activeChecks := Range(|checkList|);
      var currentPageNumber := 0;
      ghost var done: Trace<T> := Trace([], [], [], 0, target, None);
      while true
        invariant ValidActive(activeChecks, |checkList|)
        invariant Midway(cfg, full, done, old(performed), old(nextPageCalls), states0, activeChecks, currentPageNumber)
        decreases cfg.pageCount - currentPageNumber
      {
        var outcome, goOn, next;
        outcome, goOn, next, done := RunPass(cfg, full, done, old(performed), old(nextPageCalls), states0, activeChecks, currentPageNumber);
        if !goOn {
          return outcome;
        }
        activeChecks := next;
        currentPageNumber := currentPageNumber + 1;
      }
    }

    /** Before the first pass, nothing of the run `full` is done. */
    lemma MidwayAtStart(cfg: RunConfig<T>, full: Trace<T>, states0: seq<CheckState>)
      requires cfg == Config() && full == RunSpec(cfg, target) && states0 == StatesOf(checkList)
      ensures Midway(cfg, full, Trace([], [], [], 0, target, None), performed, nextPageCalls, states0, Range(|checkList|), 0)
    {
      JoinNothing(target, full);
    }

    /**
     * The state partway through the run `full`, which began with `performed0` performs and
     * `calls0` calls of `nextPage`: the passes of `done` are made, and the rest of the run is
     * the one from the current page with `active` checks and the counter at `page`.
     */
    ghost predicate Midway(cfg: RunConfig<T>, full: Trace<T>, done: Trace<T>, performed0: seq<nat>, calls0: nat, states0: seq<CheckState>,
                           active: seq<nat>, page: int)
      reads this`target, this`performed, this`nextPageCalls, this`checkList, checkList
    {
      && full == Join(done, Pages(cfg, target, active, page))
      && performed == performed0 + Concat(done.visits)
      && nextPageCalls == calls0 + done.turns
      && |done.pages| == |done.visits|
      && (Distinct(checkList) ==> StatesOf(checkList) == RunStates(ErrorFunctions(checkList), states0, done.pages, done.visits))
    }

    /** One pass of the loop of `runWithoutThrowing`: the last pass completes the run, any other leaves the rest of it to do. */
    method RunPass(ghost cfg: RunConfig<T>, ghost full: Trace<T>, ghost done: Trace<T>, ghost performed0: seq<nat>, ghost calls0: nat,
                   ghost states0: seq<CheckState>, active: seq<nat>, page: int)
      returns (r: Outcome<Throwable>, goOn: bool, next: seq<nat>, ghost done': Trace<T>)
      requires cfg == Config() && ValidActive(active, |checkList|)
      requires Midway(cfg, full, done, performed0, calls0, states0, active, page)
      modifies checkList, this`target, this`performed, this`nextPageCalls
      ensures !goOn ==> Follows(full, r, performed0, calls0, states0)
      ensures goOn ==> page + 1 < cfg.pageCount && ValidActive(next, |checkList|) && Midway(cfg, full, done', performed0, calls0, states0, next, page + 1)
    {
      ghost var here := target;
      ghost var unit := PageUnit(cfg, here, active, page);
      r, goOn, next := VisitPage(cfg, active, page);
      JoinPerformed(performed0, done, unit);
      done' := Join(done, unit);
      if unit.crash.None? {
        RunStatesAppend(ErrorFunctions(checkList), states0, done.pages, done.visits, unit.pages, unit.visits);
      }
      if !goOn {
        RunStops(cfg, full, done, here, active, page);
      } else {
        RunGoesOn(cfg, full, done, here, active, page);
      }
    }

    /**
     * `assertAll`: appends every registered check's collected errors, in registration order
     * and whether or not the check was still active, to `errorList`, which is never cleared;
     * throws one aggregate of them when there is any.
     */
    method AssertAll() returns (r: Outcome<Throwable>)
      modifies this`errorList
      ensures errorList == old(errorList) + CollectedErrorsOf(checkList)
      ensures r == if |errorList| == 0 then Pass else Fail(MultipleFailuresError(AggregateHeading, errorList))
    {
      var i := 0;
      while i < |checkList|
        invariant 0 <= i <= |checkList|
        invariant errorList == old(errorList) + CollectedErrorsOf(checkList[..i])
      {
        var errors := checkList[i].GetCollectedErrors();
        assert checkList[..i + 1][..i] == checkList[..i];
        errorList := errorList + errors;
        i := i + 1;
      }
      assert checkList[..i] == checkList;
      if |errorList| > 0 {
        return Fail(MultipleFailuresError(AggregateHeading, errorList));
      }
      return Pass;
    }

    /**
     * `run`: `runWithoutThrowing`, then `assertAll`; returns the target when nothing is thrown.
     * After a run that throws nothing, each registered check (when no check object is
     * registered twice) has made one perform per page that performed it and collected the
     * errors of those performs in page order, at most one of them in lazy mode; in eager mode
     * every check is performed on every page visited. The aggregate holds, after the earlier
     * errors, the errors of every check in registration order.
     */
    method Run() returns (r: Result<T, Throwable>)
      modifies checkList, this`target, this`performed, this`nextPageCalls, this`errorList
      ensures |old(checkList)| == 0 ==> r == Failure(RuntimeException(EmptyChecklistMessage)) && errorList == old(errorList)
      ensures |old(checkList)| > 0 ==>
        var tr := RunSpec(old(Config()), old(target));
        && target == tr.target
        && (tr.crash.Some? ==> r == Failure(tr.crash.value) && errorList == old(errorList))
        && (tr.crash.None? ==>
              && errorList == old(errorList) + CollectedErrorsOf(checkList)
              && r == if |errorList| == 0 then Success(target) else Failure(MultipleFailuresError(AggregateHeading, errorList)))
      ensures |old(checkList)| > 0 && Distinct(checkList) ==>
        var tr := RunSpec(old(Config()), old(target));
        tr.crash.None? ==>
          forall k :: 0 <= k < |checkList| ==>
            var ts := TargetsOf(k, tr.pages, tr.visits);
            && checkList[k].checkNumber == old(checkList[k].checkNumber) + |ts|
            && checkList[k].collectedErrors == old(checkList[k].collectedErrors) + ErrorsOver(checkList[k].ErrorAt, old(checkList[k].checkNumber), ts)
            && (lazyMode ==> |checkList[k].collectedErrors| <= |old(checkList[k].collectedErrors)| + 1)
            && (!lazyMode ==> ts == tr.pages)
    {
      ghost var cfg := Config();
      ghost var start := target;
      ghost var states0 := StatesOf(checkList);
      StatesOfEach(checkList);
      var o := RunWithoutThrowing();
      if o.Fail? {
        return Failure(o.error);
      }
      o := AssertAll();
      ChecksAfterRun(cfg, start, states0);
      r := if o.Fail? then Failure(o.error) else Success(target);
    }

    /** Reading the checks' states after a run that throws nothing check by check. */
    lemma ChecksAfterRun(cfg: RunConfig<T>, start: T, states0: seq<CheckState>)
      requires cfg == Config() && |checkList| > 0 && |states0| == |checkList|
      requires var tr := RunSpec(cfg, start);
        tr.crash.None? && Distinct(checkList) ==> StatesOf(checkList) == RunStates(ErrorFunctions(checkList), states0, tr.pages, tr.visits)
      ensures Distinct(checkList) ==>
        var tr := RunSpec(cfg, start);
        tr.crash.None? ==>
          forall k :: 0 <= k < |checkList| ==>
            var ts := TargetsOf(k, tr.pages, tr.visits);
            && checkList[k].checkNumber == states0[k].checkNumber + |ts|
            && checkList[k].collectedErrors == states0[k].collectedErrors + ErrorsOver(checkList[k].ErrorAt, states0[k].checkNumber, ts)
            && (lazyMode ==> |checkList[k].collectedErrors| <= |states0[k].collectedErrors| + 1)
            && (!lazyMode ==> ts == tr.pages)
    {
      var tr := RunSpec(cfg, start);
      StatesOfEach(checkList);
      if Distinct(checkList) && tr.crash.None? {
        forall k | 0 <= k < |checkList|
          ensures var ts := TargetsOf(k, tr.pages, tr.visits);
            && checkList[k].checkNumber == states0[k].checkNumber + |ts|
            && checkList[k].collectedErrors == states0[k].collectedErrors + ErrorsOver(checkList[k].ErrorAt, states0[k].checkNumber, ts)
            && (lazyMode ==> |checkList[k].collectedErrors| <= |states0[k].collectedErrors| + 1)
            && (!lazyMode ==> ts == tr.pages)
        {
          RunStatesPerCheck(checkList, states0, cfg, start, k);
        }
      }
    }
  }
}
