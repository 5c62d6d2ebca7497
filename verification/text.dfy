/** Python string helpers used by the owner-name code, on ASCII text:
    `str.strip()`, `str.split()` (no argument), `str.rstrip(ch)` and `in`. */
module Text {
  import opened Chars

  predicate AllSpace(s: string) {
    forall i :: 0 <= i < |s| ==> IsSpace(s[i])
  }

  /** A token of `str.split()`: non-empty, no whitespace inside. */
  predicate IsToken(t: string) {
    |t| > 0 && forall i :: 0 <= i < |t| ==> !IsSpace(t[i])
  }

  predicate AllTokens(ts: seq<string>) {
    forall i :: 0 <= i < |ts| ==> IsToken(ts[i])
  }

  /** The characters of `s` that are not whitespace, in order. */
  function NonSpace(s: string): string {
    if |s| == 0 then "" else (if IsSpace(s[0]) then "" else [s[0]]) + NonSpace(s[1..])
  }

  function Flatten(ts: seq<string>): string {
    if |ts| == 0 then "" else ts[0] + Flatten(ts[1..])
  }

  /** The first index at or after `i` that does not hold whitespace (or `|s|`). */
  function SkipSpace(s: string, i: nat): (j: nat)
    requires i <= |s|
    ensures i <= j <= |s|
    ensures j < |s| ==> !IsSpace(s[j])
    decreases |s| - i
  {
    if i == |s| || !IsSpace(s[i]) then i else SkipSpace(s, i + 1)
  }

  lemma {:induction false} SkipSpaceSpan(s: string, i: nat)
    requires i <= |s|
    ensures forall k :: i <= k < SkipSpace(s, i) ==> IsSpace(s[k])
    decreases |s| - i
  {
    if i < |s| && IsSpace(s[i]) {
      SkipSpaceSpan(s, i + 1);
    }
  }

  /** The first index at or after `i` that holds whitespace (or `|s|`). */
  function SkipToken(s: string, i: nat): (j: nat)
    requires i <= |s|
    ensures i <= j <= |s|
    ensures j < |s| ==> IsSpace(s[j])
    decreases |s| - i
  {
    if i == |s| || IsSpace(s[i]) then i else SkipToken(s, i + 1)
  }

  lemma {:induction false} SkipTokenSpan(s: string, i: nat)
    requires i <= |s|
    ensures forall k :: i <= k < SkipToken(s, i) ==> !IsSpace(s[k])
    decreases |s| - i
  {
    if i < |s| && !IsSpace(s[i]) {
      SkipTokenSpan(s, i + 1);
    }
  }

  /** The index just past the last character before `j` that is not whitespace
      (or 0 when `s[..j]` is all whitespace). */
  function BackSkipSpace(s: string, j: nat): (k: nat)
    requires j <= |s|
    ensures k <= j
    ensures forall m :: k <= m < j ==> IsSpace(s[m])
    ensures k > 0 ==> !IsSpace(s[k - 1])
  {
    if j == 0 || !IsSpace(s[j - 1]) then j else BackSkipSpace(s, j - 1)
  }

  /** `str.strip()`: the text between the leading and the trailing whitespace. */
  function Strip(s: string): (r: string)
    ensures AllSpace(s) <==> r == ""
    ensures r != "" ==> !IsSpace(r[0]) && !IsSpace(r[|r| - 1])
    ensures SkipSpace(s, 0) + |r| <= |s|
    ensures r == s[SkipSpace(s, 0)..SkipSpace(s, 0) + |r|]
    ensures AllSpace(s[SkipSpace(s, 0) + |r|..])
  {
    var a := SkipSpace(s, 0);
    SkipSpaceSpan(s, 0);
    if a == |s| then ""
    else
      var b := BackSkipSpace(s, |s|);
      s[a..b]
  }

  /** The tokens of `s[i..]`. */
  function SplitFrom(s: string, i: nat): seq<string>
    requires i <= |s|
    decreases |s| - i
  {
    var j := SkipSpace(s, i);
    if j == |s| then []
    else
      var k := SkipToken(s, j);
      [s[j..k]] + SplitFrom(s, k)
  }

  /** `str.split()` with no argument: the maximal runs of non-whitespace characters. */
  function Split(s: string): (ts: seq<string>)
    ensures AllTokens(ts)
    ensures AllSpace(s) <==> ts == []
  {
    var ts := SplitFrom(s, 0);
    SkipSpaceSpan(s, 0);
    SplitFromTokens(s, 0);
    ts
  }

  lemma {:induction false} SplitFromTokens(s: string, i: nat)
    requires i <= |s|
    ensures AllTokens(SplitFrom(s, i))
    decreases |s| - i
  {
    var j := SkipSpace(s, i);
    if j < |s| {
      var k := SkipToken(s, j);
      SkipTokenSpan(s, j);
      SplitFromTokens(s, k);
      var ts := SplitFrom(s, i);
      assert ts == [s[j..k]] + SplitFrom(s, k);
      assert forall m :: 1 <= m < |ts| ==> ts[m] == SplitFrom(s, k)[m - 1];
    }
  }

  /** `" ".join(ts)`. */
  function JoinSpace(ts: seq<string>): string {
    if |ts| == 0 then "" else if |ts| == 1 then ts[0] else ts[0] + " " + JoinSpace(ts[1..])
  }

  /** `str.rstrip(ch)`: drops every trailing copy of `ch`. */
  function RStripChar(s: string, ch: char): (r: string)
    ensures |r| <= |s| && r == s[..|r|]
    ensures forall i :: |r| <= i < |s| ==> s[i] == ch
    ensures |r| > 0 ==> r[|r| - 1] != ch
  {
    if |s| == 0 || s[|s| - 1] != ch then s else RStripChar(s[..|s| - 1], ch)
  }

  predicate OccursAt(s: string, sub: string, i: int)
    requires 0 <= i <= |s| - |sub|
  {
    s[i..i + |sub|] == sub
  }

  /** Python's `sub in s`. */
  predicate Contains(s: string, sub: string) {
    exists i :: 0 <= i <= |s| - |sub| && OccursAt(s, sub, i)
  }

  // ---------------------------------------------------------------------------
  // Split keeps every non-whitespace character, in order

  lemma {:induction false} NonSpaceAppend(a: string, b: string)
    ensures NonSpace(a + b) == NonSpace(a) + NonSpace(b)
    decreases |a|
  {
    if |a| > 0 {
      assert (a + b)[1..] == a[1..] + b;
      NonSpaceAppend(a[1..], b);
    } else {
      assert a + b == b;
    }
  }

  lemma {:induction false} NonSpaceOfAllSpace(s: string)
    requires AllSpace(s)
    ensures NonSpace(s) == ""
    decreases |s|
  {
    if |s| > 0 {
      NonSpaceOfAllSpace(s[1..]);
    }
  }

  lemma {:induction false} NonSpaceOfToken(t: string)
    requires forall i :: 0 <= i < |t| ==> !IsSpace(t[i])
    ensures NonSpace(t) == t
    decreases |t|
  {
    if |t| > 0 {
      NonSpaceOfToken(t[1..]);
    }
  }

  lemma {:induction false} SplitFromKeepsText(s: string, i: nat)
    requires i <= |s|
    ensures Flatten(SplitFrom(s, i)) == NonSpace(s[i..])
    decreases |s| - i
  {
    var j := SkipSpace(s, i);
    SkipSpaceSpan(s, i);
    if j == |s| {
      NonSpaceOfAllSpace(s[i..]);
    } else {
      var k := SkipToken(s, j);
      SkipTokenSpan(s, j);
      assert s[i..] == s[i..j] + (s[j..k] + s[k..]);
      NonSpaceAppend(s[i..j], s[j..k] + s[k..]);
      NonSpaceAppend(s[j..k], s[k..]);
      NonSpaceOfAllSpace(s[i..j]);
      NonSpaceOfToken(s[j..k]);
      SplitFromKeepsText(s, k);
      var ts := SplitFrom(s, i);
      assert ts[1..] == SplitFrom(s, k);
    }
  }

  /** Splitting loses no text: the tokens, concatenated, are exactly the
      non-whitespace characters of the input. */
  lemma SplitKeepsText(s: string)
    ensures Flatten(Split(s)) == NonSpace(s)
  {
    SplitFromKeepsText(s, 0);
    assert s[0..] == s;
  }

  // ---------------------------------------------------------------------------
  // Split: whitespace around and between tokens does not matter

  lemma {:induction false} SkipSpaceShift(w: string, x: string, i: nat)
    requires i <= |x|
    ensures SkipSpace(w + x, |w| + i) == |w| + SkipSpace(x, i)
    decreases |x| - i
  {
    if i < |x| && IsSpace(x[i]) {
      SkipSpaceShift(w, x, i + 1);
    }
  }

  lemma {:induction false} SkipTokenShift(w: string, x: string, i: nat)
    requires i <= |x|
    ensures SkipToken(w + x, |w| + i) == |w| + SkipToken(x, i)
    decreases |x| - i
  {
    if i < |x| && !IsSpace(x[i]) {
      SkipTokenShift(w, x, i + 1);
    }
  }

  /** The tokens after a position do not depend on the text before it. */
  lemma {:induction false} SplitFromShift(w: string, x: string, i: nat)
    requires i <= |x|
    ensures SplitFrom(w + x, |w| + i) == SplitFrom(x, i)
    decreases |x| - i
  {
    var s := w + x;
    var j := SkipSpace(x, i);
    SkipSpaceShift(w, x, i);
    if j < |x| {
      var k := SkipToken(x, j);
      SkipTokenShift(w, x, j);
      SliceOfAppend(w, x, j, k);
      SplitFromStep(s, |w| + i, |w| + j, |w| + k);
      SplitFromStep(x, i, j, k);
      SplitFromShift(w, x, k);
      assert SplitFrom(s, |w| + i) == [x[j..k]] + SplitFrom(s, |w| + k);
    } else {
      SplitFromAtEnd(x, i);
      SplitFromAtEnd(s, |w| + i);
    }
  }

  lemma SliceOfAppend(w: string, x: string, j: nat, k: nat)
    requires j <= k <= |x|
    ensures (w + x)[|w| + j..|w| + k] == x[j..k]
  {
  }

  lemma SplitFromAtEnd(s: string, i: nat)
    requires i <= |s| && SkipSpace(s, i) == |s|
    ensures SplitFrom(s, i) == []
  {
  }

  /** One step of SplitFrom, spelled out. */
  lemma SplitFromStep(s: string, i: nat, j: nat, k: nat)
    requires i <= |s| && j == SkipSpace(s, i) && j < |s| && k == SkipToken(s, j)
    ensures SplitFrom(s, i) == [s[j..k]] + SplitFrom(s, k)
  {
  }

  lemma {:induction false} SkipSpaceOverSpace(s: string, i: nat, j: nat)
    requires i <= j <= |s|
    requires forall k :: i <= k < j ==> IsSpace(s[k])
    ensures SkipSpace(s, i) == SkipSpace(s, j)
    decreases j - i
  {
    if i < j {
      SkipSpaceOverSpace(s, i + 1, j);
    }
  }

  /** Whitespace in front of a string does not change its tokens. */
  lemma SplitSkipsLeadingSpace(w: string, x: string)
    requires AllSpace(w)
    ensures Split(w + x) == Split(x)
  {
    SkipSpaceOverSpace(w + x, 0, |w|);
    SplitFromShift(w, x, 0);
    assert SplitFrom(w + x, 0) == SplitFrom(w + x, |w|);
  }

  lemma {:induction false} SkipTokenOfPrefix(x: string, w: string, j: nat)
    requires j <= |x|
    requires w == "" || IsSpace(w[0])
    ensures SkipToken(x + w, j) == SkipToken(x, j)
    decreases |x| - j
  {
    if j < |x| && !IsSpace(x[j]) {
      SkipTokenOfPrefix(x, w, j + 1);
    }
  }

  lemma {:induction false} SkipSpaceOfPrefix(x: string, w: string, i: nat)
    requires i <= |x|
    requires AllSpace(w)
    ensures SkipSpace(x, i) < |x| ==> SkipSpace(x + w, i) == SkipSpace(x, i)
    ensures SkipSpace(x, i) == |x| ==> SkipSpace(x + w, i) == |x + w|
    decreases |x| - i
  {
    if i < |x| && IsSpace(x[i]) {
      SkipSpaceOfPrefix(x, w, i + 1);
    } else if i == |x| {
      SkipSpaceToEnd(x + w, i);
    }
  }

  lemma {:induction false} SkipSpaceToEnd(s: string, i: nat)
    requires i <= |s|
    requires forall k :: i <= k < |s| ==> IsSpace(s[k])
    ensures SkipSpace(s, i) == |s|
    decreases |s| - i
  {
    if i < |s| {
      SkipSpaceToEnd(s, i + 1);
    }
  }

  /** The tokens from position `i` on are unchanged by whitespace appended at the end. */
  lemma {:induction false} SplitFromOfPrefix(x: string, w: string, i: nat)
    requires i <= |x|
    requires AllSpace(w)
    ensures SplitFrom(x + w, i) == SplitFrom(x, i)
    decreases |x| - i
  {
    SkipSpaceOfPrefix(x, w, i);
    var j := SkipSpace(x, i);
    if j < |x| {
      SkipTokenOfPrefix(x, w, j);
      var k := SkipToken(x, j);
      assert (x + w)[j..k] == x[j..k];
      SplitFromOfPrefix(x, w, k);
    }
  }

  /** `str.split()` sees the same tokens before and after `str.strip()`. */
  lemma SplitOfStrip(s: string)
    ensures Split(Strip(s)) == Split(s)
  {
    var lead := SkipSpace(s, 0);
    var r := Strip(s);
    var tail := s[lead + |r|..];
    assert s == s[..lead] + (r + tail);
    SkipSpaceSpan(s, 0);
    SplitSkipsLeadingSpace(s[..lead], r + tail);
    SplitFromOfPrefix(r, tail, 0);
  }

  /** Stripping a string that neither starts nor ends with whitespace changes nothing. */
  lemma StripOfTrimmed(s: string)
    requires s != "" && !IsSpace(s[0]) && !IsSpace(s[|s| - 1])
    ensures Strip(s) == s
  {
    assert SkipSpace(s, 0) == 0;
    assert BackSkipSpace(s, |s|) == |s|;
  }

  // ---------------------------------------------------------------------------
  // Split and JoinSpace are inverse on tokens

  /** A token followed by whitespace (or by nothing) is split off as the first token. */
  lemma SplitOfTokenThen(t: string, tail: string)
    requires IsToken(t)
    requires tail == "" || IsSpace(tail[0])
    ensures Split(t + tail) == [t] + Split(tail)
  {
    var s := t + tail;
    assert SkipSpace(s, 0) == 0;
    assert SkipToken(t, 0) == |t| by {
      SkipTokenAll(t, 0);
    }
    SkipTokenOfPrefix(t, tail, 0);
    assert s[0..|t|] == t;
    SplitFromShift(t, tail, 0);
  }

  lemma {:induction false} SkipTokenAll(t: string, i: nat)
    requires i <= |t|
    requires forall k :: 0 <= k < |t| ==> !IsSpace(t[k])
    ensures SkipToken(t, i) == |t|
    decreases |t| - i
  {
    if i < |t| {
      SkipTokenAll(t, i + 1);
    }
  }

  lemma JoinSpaceCons(ts: seq<string>)
    requires |ts| > 1
    ensures JoinSpace(ts) == ts[0] + (" " + JoinSpace(ts[1..]))
  {
  }

  /** Joining tokens with single spaces and splitting again gives the tokens back. */
  lemma {:induction false} SplitJoinSpace(ts: seq<string>)
    requires AllTokens(ts)
    ensures Split(JoinSpace(ts)) == ts
    decreases |ts|
  {
    if |ts| == 1 {
      SplitOfTokenThen(ts[0], "");
      assert ts[0] + "" == ts[0];
    } else if |ts| > 1 {
      var rest := JoinSpace(ts[1..]);
      assert Split(" " + rest) == ts[1..] by {
        SplitSkipsLeadingSpace(" ", rest);
        SplitJoinSpace(ts[1..]);
      }
      JoinSpaceCons(ts);
      SplitOfTokenThen(ts[0], " " + rest);
      assert [ts[0]] + ts[1..] == ts;
    }
  }

  /** Tokens joined by single spaces are left alone by `str.strip()` and
      split back into exactly those tokens. */
  lemma JoinedTokens(ts: seq<string>)
    requires |ts| > 0 && AllTokens(ts)
    ensures Strip(JoinSpace(ts)) == JoinSpace(ts)
    ensures Split(JoinSpace(ts)) == ts
  {
    SplitJoinSpace(ts);
    var s := JoinSpace(ts);
    assert !AllSpace(s);
    SplitKeepsText(s);
    JoinSpaceEnds(ts);
    StripOfTrimmed(s);
  }

  lemma {:induction false} JoinSpaceEnds(ts: seq<string>)
    requires |ts| > 0 && AllTokens(ts)
    ensures |JoinSpace(ts)| > 0
    ensures JoinSpace(ts)[0] == ts[0][0]
    ensures JoinSpace(ts)[|JoinSpace(ts)| - 1] == ts[|ts| - 1][|ts[|ts| - 1]| - 1]
    decreases |ts|
  {
    if |ts| > 1 {
      JoinSpaceEnds(ts[1..]);
    }
  }

  lemma JoinTwo(a: string, b: string)
    ensures JoinSpace([a, b]) == a + " " + b
  {
    assert [a, b][1..] == [b];
  }

  lemma JoinThree(a: string, b: string, c: string)
    ensures JoinSpace([a, b, c]) == a + " " + b + " " + c
  {
    assert [a, b, c][1..] == [b, c];
    JoinTwo(b, c);
    assert a + " " + (b + " " + c) == a + " " + b + " " + c;
  }

  lemma JoinFour(a: string, b: string, c: string, d: string)
    ensures JoinSpace([a, b, c, d]) == a + " " + b + " " + c + " " + d
  {
    assert [a, b, c, d][1..] == [b, c, d];
    JoinThree(b, c, d);
    assert a + " " + (b + " " + c + " " + d) == a + " " + b + " " + c + " " + d;
  }

  /** Whitespace after the text adds no tokens. */
  lemma SplitDropsTrailingSpace(x: string, w: string)
    requires AllSpace(w)
    ensures Split(x + w) == Split(x)
  {
    SplitFromOfPrefix(x, w, 0);
  }

  /** Concatenation regroups freely; stated once so that long chains of
      `+` need not be re-proved inside larger proofs. */
  lemma Associative(a: string, b: string, c: string)
    ensures a + (b + c) == a + b + c
  {
  }
}
