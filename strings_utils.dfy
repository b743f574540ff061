/** String helpers: rendering a collection one element per line, and case-insensitive containment. */
module StringsUtils {

  /** How each element of `xs` is rendered by `String.valueOf`. */
  function Shown<E>(xs: seq<E>, show: E -> string): seq<string>
  {
    seq(|xs|, k requires 0 <= k < |xs| => show(xs[k]))
  }

  /** The strings joined by single newlines, with no trailing separator. */
  function JoinLines(items: seq<string>): string
    decreases |items|
  {
    if |items| == 0 then ""
    else if |items| == 1 then items[0]
    else JoinLines(items[..|items| - 1]) + "\n" + items[|items| - 1]
  }

  /** `[]` for no element, otherwise the elements one per line between square brackets. */
  function Bracketed(items: seq<string>): string
  {
    if |items| == 0 then "[]" else "[" + JoinLines(items) + "]"
  }

  /** `collectionToString`: the iterator loop that fills a `StringBuilder`. */
  method CollectionToString<E>(collection: seq<E>, show: E -> string) returns (s: string)
    ensures s == Bracketed(Shown(collection, show))
  {
    if |collection| == 0 {
      return "[]";
    }
    ghost var shown := Shown(collection, show);
    var sb := "[";
    var i := 0;
    while true
      invariant 0 <= i < |collection|
      invariant i == 0 ==> sb == "["
      invariant i > 0 ==> sb == "[" + JoinLines(shown[..i]) + "\n"
      decreases |collection| - i
    {
      ghost var before := sb;
      sb := sb + show(collection[i]);
      assert shown[i] == show(collection[i]);
      assert shown[..i] + [shown[i]] == shown[..i + 1];
      JoinLinesSnoc(shown[..i], shown[i]);
      assert sb == "[" + JoinLines(shown[..i + 1]);
      if i + 1 == |collection| {
        assert shown[..i + 1] == shown;
        return sb + "]";
      }
      sb := sb + "\n";
      i := i + 1;
    }
  }

  lemma JoinLinesSnoc(items: seq<string>, x: string)
    ensures JoinLines(items + [x]) == if |items| == 0 then x else JoinLines(items) + "\n" + x
  {
    assert (items + [x])[..|items|] == items;
  }

  predicate HasNoNewline(s: string)
  {
    forall k :: 0 <= k < |s| ==> s[k] != '\n'
  }

  /** Where the last newline of `s` stands. */
  function LastNewline(s: string): (i: nat)
    requires !HasNoNewline(s)
    ensures i < |s| && s[i] == '\n' && HasNoNewline(s[i + 1..])
    decreases |s|
  {
    if s[|s| - 1] == '\n' then |s| - 1 else LastNewline(s[..|s| - 1])
  }

  /** The lines of `s`: the pieces between its newlines. */
  function SplitLines(s: string): seq<string>
    decreases |s|
  {
    if HasNoNewline(s) then [s]
    else
      var i := LastNewline(s);
      SplitLines(s[..i]) + [s[i + 1..]]
  }

  lemma {:induction false} LastNewlineOfJoin(a: string, b: string)
    requires HasNoNewline(b)
    ensures !HasNoNewline(a + "\n" + b) && LastNewline(a + "\n" + b) == |a|
    decreases |b|
  {
    var s := a + "\n" + b;
    assert s[|a|] == '\n';
    if |b| > 0 {
      assert s[..|s| - 1] == a + "\n" + b[..|b| - 1];
      LastNewlineOfJoin(a, b[..|b| - 1]);
    }
  }

  /**
   * Splitting the rendering of a non-empty collection at its newlines gives back each
   * element's string, provided no element string itself contains a newline.
   */
  lemma {:induction false} SplitJoinLines(items: seq<string>)
    requires |items| >= 1
    requires forall i :: 0 <= i < |items| ==> HasNoNewline(items[i])
    ensures SplitLines(JoinLines(items)) == items
    decreases |items|
  {
    if |items| > 1 {
      var init := items[..|items| - 1];
      var last := items[|items| - 1];
      var j := JoinLines(init);
      LastNewlineOfJoin(j, last);
      var s := j + "\n" + last;
      assert s[..|j|] == j;
      assert s[|j| + 1..] == last;
      SplitJoinLines(init);
      assert init + [last] == items;
    }
  }

  function CountChar(c: char, s: string): nat
    decreases |s|
  {
    if |s| == 0 then 0 else CountChar(c, s[..|s| - 1]) + (if s[|s| - 1] == c then 1 else 0)
  }

  lemma {:induction false} CountCharAppend(c: char, a: string, b: string)
    ensures CountChar(c, a + b) == CountChar(c, a) + CountChar(c, b)
    decreases |b|
  {
    if |b| == 0 {
      assert a + b == a;
    } else {
      assert (a + b)[..|a + b| - 1] == a + b[..|b| - 1];
      CountCharAppend(c, a, b[..|b| - 1]);
    }
  }

  lemma {:induction false} CountNoNewline(s: string)
    requires HasNoNewline(s)
    ensures CountChar('\n', s) == 0
    decreases |s|
  {
    if |s| > 0 {
      CountNoNewline(s[..|s| - 1]);
    }
  }

  lemma {:induction false} NewlinesOfJoinLines(items: seq<string>)
    requires |items| >= 1
    requires forall i :: 0 <= i < |items| ==> HasNoNewline(items[i])
    ensures CountChar('\n', JoinLines(items)) == |items| - 1
    decreases |items|
  {
    CountNoNewline(items[|items| - 1]);
    if |items| > 1 {
      var init := items[..|items| - 1];
      NewlinesOfJoinLines(init);
      CountCharAppend('\n', JoinLines(init) + "\n", items[|items| - 1]);
      CountCharAppend('\n', JoinLines(init), "\n");
      assert CountChar('\n', "\n") == CountChar('\n', "") + 1;
    }
  }

  /**
   * The rendering of n elements whose strings hold no newline holds exactly n - 1 newlines
   * (none for the empty collection), between an opening and a closing bracket.
   */
  lemma NewlinesOfBracketed(items: seq<string>)
    requires forall i :: 0 <= i < |items| ==> HasNoNewline(items[i])
    ensures var s := Bracketed(items);
      |s| >= 2 && s[0] == '[' && s[|s| - 1] == ']' &&
      CountChar('\n', s) == if |items| == 0 then 0 else |items| - 1
  {
    var s := Bracketed(items);
    if |items| == 0 {
      CountNoNewline(s);
    } else {
      NewlinesOfJoinLines(items);
      CountCharAppend('\n', "[" + JoinLines(items), "]");
      CountCharAppend('\n', "[", JoinLines(items));
      CountNoNewline("[");
      CountNoNewline("]");
    }
  }

  /** `String.contains`: `part` is a prefix of `s` or of one of its suffixes. */
  predicate Contains(s: string, part: string)
    decreases |s|
  {
    part <= s || (|s| > 0 && Contains(s[1..], part))
  }

  /** `part` occurs in `s` starting at position `k`. */
  predicate OccursAt(s: string, part: string, k: int)
  {
    0 <= k <= |s| - |part| && s[k..k + |part|] == part
  }

  /** Containment means an occurrence of `part` at some position of `s`. */
  lemma {:induction false} ContainsIsOccurrence(s: string, part: string)
    ensures Contains(s, part) <==> exists k :: OccursAt(s, part, k)
    decreases |s|
  {
    if part <= s {
      assert s[0..|part|] == part;
      assert OccursAt(s, part, 0);
    } else if |s| > 0 {
      ContainsIsOccurrence(s[1..], part);
      if exists k :: OccursAt(s, part, k) {
        var k :| OccursAt(s, part, k);
        if k > 0 {
          assert s[1..][k - 1..k - 1 + |part|] == part;
          assert OccursAt(s[1..], part, k - 1);
        }
      }
      if Contains(s[1..], part) {
        var k :| OccursAt(s[1..], part, k);
        assert s[k + 1..k + 1 + |part|] == part;
        assert OccursAt(s, part, k + 1);
      }
    }
  }

  /**
   * `stringContainsAnyStringCaseInsensitively`: some string of `list`, lowered, occurs in
   * the lowered `s`. `lower` stands for Java's `toLowerCase`.
   */
  function StringContainsAnyStringCaseInsensitively(s: string, list: seq<string>, lower: string -> string): (r: bool)
    ensures r <==> exists i :: 0 <= i < |list| && Contains(lower(s), lower(list[i]))
    ensures |list| == 0 ==> !r
    decreases |list|
  {
    if |list| == 0 then false
    else Contains(lower(s), lower(list[0])) || StringContainsAnyStringCaseInsensitively(s, list[1..], lower)
  }
}
