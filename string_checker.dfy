/** `StringChecker`: find a string that misses every keyword of some keyword list. */
module StringChecker {
  import opened Wrappers
  import opened StringsUtils

  /** `allMatch` over the keyword lists: `s` contains, ignoring case, some keyword of each list. */
  function ContainsAnyOfEachList(s: string, lists: seq<seq<string>>, lower: string -> string): (r: bool)
    ensures r <==> forall j :: 0 <= j < |lists| ==> StringContainsAnyStringCaseInsensitively(s, lists[j], lower)
    decreases |lists|
  {
    if |lists| == 0 then true
    else StringContainsAnyStringCaseInsensitively(s, lists[0], lower) && ContainsAnyOfEachList(s, lists[1..], lower)
  }

  /**
   * `eachStringContainAnyStringOfEachList`: the first string, in list order, that fails
   * `ContainsAnyOfEachList`, or `None` (Java's `null`) when every string passes.
   */
  function EachStringContainAnyStringOfEachList(strings: seq<string>, lists: seq<seq<string>>, lower: string -> string): (r: Option<string>)
    ensures r.None? <==> forall i :: 0 <= i < |strings| ==> ContainsAnyOfEachList(strings[i], lists, lower)
    decreases |strings|
  {
    if |strings| == 0 then None
    else if !ContainsAnyOfEachList(strings[0], lists, lower) then Some(strings[0])
    else EachStringContainAnyStringOfEachList(strings[1..], lists, lower)
  }

  /** `strings[i]` fails and every string before it passes. */
  predicate IsFirstFailing(strings: seq<string>, lists: seq<seq<string>>, lower: string -> string, i: int)
  {
    && 0 <= i < |strings|
    && !ContainsAnyOfEachList(strings[i], lists, lower)
    && forall j :: 0 <= j < i ==> ContainsAnyOfEachList(strings[j], lists, lower)
  }

  /** A string that is returned is an element of `strings` that fails, and every string before it passes. */
  lemma {:induction false} ResultIsFirstFailingString(strings: seq<string>, lists: seq<seq<string>>, lower: string -> string)
    ensures var r := EachStringContainAnyStringOfEachList(strings, lists, lower);
      r.Some? ==> exists i :: IsFirstFailing(strings, lists, lower, i) && strings[i] == r.value
    decreases |strings|
  {
    var r := EachStringContainAnyStringOfEachList(strings, lists, lower);
    if |strings| > 0 && ContainsAnyOfEachList(strings[0], lists, lower) && r.Some? {
      var tail := strings[1..];
      ResultIsFirstFailingString(tail, lists, lower);
      var i :| IsFirstFailing(tail, lists, lower, i) && tail[i] == r.value;
      assert strings[i + 1] == tail[i];
      forall j | 0 <= j < i + 1
        ensures ContainsAnyOfEachList(strings[j], lists, lower)
      {
        if j > 0 {
          assert strings[j] == tail[j - 1];
        }
      }
      assert IsFirstFailing(strings, lists, lower, i + 1);
    } else if |strings| > 0 && r.Some? {
      assert IsFirstFailing(strings, lists, lower, 0);
    }
  }

  /** With no keyword list, `allMatch` holds vacuously and no string is returned. */
  lemma NoListsFindsNothing(strings: seq<string>, lower: string -> string)
    ensures EachStringContainAnyStringOfEachList(strings, [], lower) == None
  {
  }

  /** An empty keyword list can be matched by no string, so the first string is returned. */
  lemma EmptyKeywordListFailsFirstString(strings: seq<string>, lists: seq<seq<string>>, lower: string -> string, j: nat)
    requires j < |lists| && lists[j] == [] && |strings| > 0
    ensures EachStringContainAnyStringOfEachList(strings, lists, lower) == Some(strings[0])
  {
    assert !StringContainsAnyStringCaseInsensitively(strings[0], lists[j], lower);
  }
}
