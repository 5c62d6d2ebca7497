/** `reorder_name`: a name written `Initial First Last` (for example
    `W. John Doe`) is rewritten as `First Initial Last` (`John W. Doe`);
    every other value is returned unchanged. */
module Reorder {
  import opened Chars
  import opened Values
  import opened Text

  /** The three named groups of the pattern. */
  datatype NameShape = NameShape(initial: string, first: string, last: string)

  /** `[A-Z][a-zA-Z]*` under `re.IGNORECASE`: one or more letters. */
  predicate IsWord(s: string) {
    |s| > 0 && forall i :: 0 <= i < |s| ==> IsLetter(s[i])
  }

  /** `[A-Z]\.?`: one letter, optionally followed by a period. */
  predicate IsInitialGroup(s: string) {
    (|s| == 1 || (|s| == 2 && s[1] == '.')) && IsLetter(s[0])
  }

  /** The first index at or after `i` holding `ch` (or `|s|`). */
  function Find(s: string, ch: char, i: nat): (k: nat)
    requires i <= |s|
    ensures i <= k <= |s|
    ensures k < |s| ==> s[k] == ch
    ensures forall m :: i <= m < k ==> s[m] != ch
    decreases |s| - i
  {
    if i == |s| || s[i] == ch then i else Find(s, ch, i + 1)
  }

  /** `[A-Z][a-zA-Z]*(-[A-Z][a-zA-Z]*)?`: a word, or two words joined by one hyphen. */
  predicate IsLastGroup(s: string) {
    var h := Find(s, '-', 0);
    if h == |s| then IsWord(s) else IsWord(s[..h]) && IsWord(s[h + 1..])
  }

  predicate WellFormed(x: NameShape) {
    IsInitialGroup(x.initial) && IsWord(x.first) && IsLastGroup(x.last)
  }

  /** The text the pattern matches for the groups `x`. */
  function Render(x: NameShape): string {
    x.initial + " " + x.first + " " + x.last
  }

  /** The text `reorder_name` builds from the groups `x`. */
  function Reordered(x: NameShape): string {
    x.first + " " + x.initial + " " + x.last
  }

  /** The text the pattern must match in full: `$` matches at the end of
      the text or just before a final newline, so one trailing `\n` is
      allowed and not captured. */
  function Body(s: string): (b: string)
    ensures b == s || (s == b + "\n")
  {
    if |s| > 0 && s[|s| - 1] == '\n' then s[..|s| - 1] else s
  }

  /** A full match of `Initial First Last` against `body`: the groups are
      separated by the first two spaces. */
  function MatchBody(body: string): (r: Option<NameShape>)
    ensures r.Some? ==> WellFormed(r.value) && body == Render(r.value)
  {
    var p := Find(body, ' ', 0);
    if p == |body| then None
    else
      var q := Find(body, ' ', p + 1);
      if q == |body| then None
      else
        var x := NameShape(body[..p], body[p + 1..q], body[q + 1..]);
        if WellFormed(x) then
          ThreeFields(body, p, q);
          Some(x)
        else None
  }

  /** `pattern2.match(s)`, anchored at the start. */
  function Match(s: string): (r: Option<NameShape>)
    ensures r.Some? ==> WellFormed(r.value)
    ensures r.Some? ==> s == Render(r.value) || s == Render(r.value) + "\n"
  {
    MatchBody(Body(s))
  }

  /** `reorder_name(name)`. */
  function ReorderName(c: Cell): (r: Cell)
    ensures c.Missing? ==> r == c
    ensures c.Str? ==> r.Str?
    ensures c.Str? && Match(c.s).None? ==> r == c
    // when rewritten, the first two tokens trade places and the third stays
    ensures c.Str? && Match(c.s).Some? ==>
      |Split(c.s)| == 3 &&
      Split(r.s) == [Split(c.s)[1], Split(c.s)[0], Split(c.s)[2]]
    // ... and nothing else changes but a dropped trailing newline
    ensures c.Str? && Match(c.s).Some? ==>
      |r.s| == (if c.s[|c.s| - 1] == '\n' then |c.s| - 1 else |c.s|)
  {
    match c
    case Missing => c
    case Str(s) =>
      match Match(s)
      case None => c
      case Some(x) =>
        RenderTokens(x);
        ReorderedTokens(x);
        Str(Strip(Reordered(x)))
  }

  lemma WellFormedTokens(x: NameShape)
    requires WellFormed(x)
    ensures AllTokens([x.initial, x.first, x.last])
  {
    var h := Find(x.last, '-', 0);
    if h < |x.last| {
      assert forall i :: 0 <= i < |x.last| && i != h ==>
        (i < h ==> x.last[i] == x.last[..h][i]) && (i > h ==> x.last[i] == x.last[h + 1..][i - h - 1]);
    }
  }

  /** The matched text splits into the three groups, newline or not. */
  lemma RenderTokens(x: NameShape)
    requires WellFormed(x)
    ensures Split(Render(x)) == [x.initial, x.first, x.last]
    ensures Split(Render(x) + "\n") == [x.initial, x.first, x.last]
  {
    WellFormedTokens(x);
    JoinThree(x.initial, x.first, x.last);
    JoinedTokens([x.initial, x.first, x.last]);
    SplitDropsTrailingSpace(Render(x), "\n");
  }

  /** The rebuilt text is already stripped and splits into the reordered groups. */
  lemma ReorderedTokens(x: NameShape)
    requires WellFormed(x)
    ensures Strip(Reordered(x)) == Reordered(x)
    ensures Split(Reordered(x)) == [x.first, x.initial, x.last]
  {
    WellFormedTokens(x);
    JoinThree(x.first, x.initial, x.last);
    JoinedTokens([x.first, x.initial, x.last]);
  }

  /** Every well-formed `Initial First Last` text is matched, with and
      without a trailing newline, and its groups are recovered exactly. */
  lemma MatchRender(x: NameShape)
    requires WellFormed(x)
    ensures Match(Render(x)) == Some(x)
    ensures Match(Render(x) + "\n") == Some(x)
  {
    MatchBodyRender(x);
    var body := Render(x);
    assert body[|body| - 1] != '\n' by {
      LastGroupEndsInLetter(x.last);
      assert body[|body| - 1] == x.last[|x.last| - 1];
    }
    assert Body(body) == body;
    var s := body + "\n";
    assert s[..|s| - 1] == body;
    assert Body(s) == body;
  }

  lemma MatchBodyRender(x: NameShape)
    requires WellFormed(x)
    ensures MatchBody(Render(x)) == Some(x)
  {
    var body := Render(x);
    var p := |x.initial|;
    var q := p + 1 + |x.first|;
    RenderSpaces(x);
    assert body[..p] == x.initial;
    assert body[p + 1..q] == x.first;
    assert body[q + 1..] == x.last;
  }

  /** The first two spaces of a rendering are the ones around the first name. */
  lemma RenderSpaces(x: NameShape)
    requires WellFormed(x)
    ensures Find(Render(x), ' ', 0) == |x.initial|
    ensures Find(Render(x), ' ', |x.initial| + 1) == |x.initial| + 1 + |x.first|
  {
    var body := Render(x);
    var p := |x.initial|;
    var q := p + 1 + |x.first|;
    assert body[p] == ' ';
    forall m | 0 <= m < p
      ensures body[m] != ' '
    {
      assert body[m] == x.initial[m];
    }
    FindAt(body, ' ', 0, p);
    assert body[q] == ' ';
    forall m | p + 1 <= m < q
      ensures body[m] != ' '
    {
      assert body[m] == x.first[m - p - 1];
    }
    FindAt(body, ' ', p + 1, q);
  }

  lemma LastGroupEndsInLetter(s: string)
    requires IsLastGroup(s)
    ensures |s| > 0 && IsLetter(s[|s| - 1])
  {
    var h := Find(s, '-', 0);
    if h < |s| {
      assert s[|s| - 1] == s[h + 1..][|s| - h - 2];
    }
  }

  /** `Find` stops at the first `ch` after a stretch without one. */
  lemma FindAt(s: string, ch: char, i: nat, k: nat)
    requires i <= k < |s| && s[k] == ch
    requires forall m :: i <= m < k ==> s[m] != ch
    ensures Find(s, ch, i) == k
  {
  }

  /** Cutting at two spaces and gluing back with spaces restores the text. */
  lemma ThreeFields(s: string, p: nat, q: nat)
    requires p < q < |s| && s[p] == ' ' && s[q] == ' '
    ensures s == s[..p] + " " + s[p + 1..q] + " " + s[q + 1..]
  {
    assert s == s[..p] + s[p..q] + s[q..];
    assert s[p..q] == " " + s[p + 1..q];
    assert s[q..] == " " + s[q + 1..];
  }

  /** `Match` recognises exactly the well-formed renderings. */
  lemma MatchCharacterization(s: string, x: NameShape)
    ensures Match(s) == Some(x) <==> WellFormed(x) && (s == Render(x) || s == Render(x) + "\n")
  {
    if WellFormed(x) && (s == Render(x) || s == Render(x) + "\n") {
      MatchRender(x);
    }
  }

  /** `reorder_name("W. John Doe")` is `"John W. Doe"`, in general form. */
  lemma ReorderNameOfRender(x: NameShape)
    requires WellFormed(x)
    ensures ReorderName(Str(Render(x))) == Str(Reordered(x))
    ensures ReorderName(Str(Render(x) + "\n")) == Str(Reordered(x))
  {
    MatchRender(x);
    ReorderedTokens(x);
  }
}
