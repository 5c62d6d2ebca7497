/** `split_name`: splits an owner's full name into a first and a last name
    by an ordered chain of rules over the name's whitespace tokens, the first
    matching rule deciding. */
module Splitter {
  import opened Chars
  import opened Values
  import opened Text

  datatype NameParts = NameParts(first: string, last: string)

  /** `llc` / `inc`: a business name, not split. */
  predicate IsEntitySuffix(w: string) {
    w == "llc" || w == "inc"
  }

  /** `sir` / `jr` / `sr`: dropped, the token before it is the last name. */
  predicate IsPersonalSuffix(w: string) {
    w == "sir" || w == "jr" || w == "sr"
  }

  /** A one-character alphabetic token: a middle or trailing initial. */
  predicate IsInitial(t: string) {
    |t| == 1 && IsLetter(t[0])
  }

  /** A token compared against the suffix lists: trailing periods dropped, lower-cased. */
  function Word(t: string): string {
    Lower(RStripChar(t, '.'))
  }

  /** `parts[-1].rstrip('.').lower()`. */
  function LastWord(parts: seq<string>): string
    requires |parts| > 0
  {
    Word(parts[|parts| - 1])
  }

  /** `split_name(full_name)`. The `&` branch of the source computes two
      token lists that are never read afterwards, so it has no counterpart here. */
  function SplitName(c: Cell): (r: NameParts)
    // missing, non-string or blank: two empty strings
    ensures c.Missing? || AllSpace(c.s) ==> r == NameParts("", "")
    // otherwise the first name is never empty
    ensures c.Str? && !AllSpace(c.s) ==> r.first != ""
    // one token: the token, no last name
    ensures c.Str? && |Split(c.s)| == 1 ==> r == NameParts(Split(c.s)[0], "")
    // a business name ending in llc/inc: the whole trimmed name, no last name
    ensures c.Str? && |Split(c.s)| >= 2 && IsEntitySuffix(LastWord(Split(c.s))) ==>
      r == NameParts(Strip(c.s), "")
    // every other name: the first token, and a last name that is one of the
    // last three tokens, chosen by the suffix and initial rules in order
    ensures c.Str? && |Split(c.s)| >= 2 && !IsEntitySuffix(LastWord(Split(c.s))) ==>
      var parts := Split(c.s);
      var n := |parts|;
      r.first == parts[0] &&
      r.last == (if IsPersonalSuffix(LastWord(parts)) then parts[n - 2]
                 else if n > 3 && IsInitial(parts[n - 2]) then parts[n - 3]
                 else if IsInitial(parts[n - 1]) then parts[n - 2]
                 else parts[n - 1])
  {
    match c
    case Missing => NameParts("", "")
    case Str(raw) =>
      var fullName := Strip(raw);
      if fullName == "" then NameParts("", "")
      else
        var parts := Split(fullName);
        SplitOfStrip(raw);
        var n := |parts|;
        var lastWord := LastWord(parts);
        if n == 1 then NameParts(parts[0], "")
        else if IsEntitySuffix(lastWord) || IsPersonalSuffix(lastWord) then
          if IsEntitySuffix(lastWord) then NameParts(fullName, "")
          else NameParts(parts[0], parts[n - 2])
        else if n > 3 && |parts[n - 2]| == 1 && IsLetter(parts[n - 2][0]) then
          NameParts(parts[0], parts[n - 3])
        else if n > 1 && |parts[n - 1]| == 1 && IsLetter(parts[n - 1][0]) then
          NameParts(parts[0], parts[n - 2])
        else NameParts(parts[0], parts[n - 1])
  }

  /** Splitting depends only on the tokens of the name, except for a business
      name, whose result keeps the name's own spacing. */
  lemma SplitNameDependsOnTokens(a: string, b: string)
    requires Split(a) == Split(b)
    requires |Split(a)| < 2 || !IsEntitySuffix(LastWord(Split(a)))
    ensures SplitName(Str(a)) == SplitName(Str(b))
  {
    var ra, rb := SplitName(Str(a)), SplitName(Str(b));
    if |Split(a)| >= 2 {
      assert ra.first == rb.first && ra.last == rb.last;
    }
  }

  /** A token that no rule treats specially when it ends the name. */
  predicate IsPlainLast(t: string) {
    var w := Word(t);
    !IsEntitySuffix(w) && !IsPersonalSuffix(w) && !IsInitial(t)
  }

  /** `First Last`. */
  lemma SplitNameFirstLast(first: string, last: string)
    requires IsToken(first) && IsToken(last) && IsPlainLast(last)
    ensures SplitName(Str(first + " " + last)) == NameParts(first, last)
  {
    JoinedTokens([first, last]);
    JoinTwo(first, last);
  }

  /** `First M Last`: the middle initial is dropped. */
  lemma SplitNameDropsMiddleInitial(first: string, m: string, last: string)
    requires IsToken(first) && IsInitial(m) && IsToken(last) && IsPlainLast(last)
    ensures SplitName(Str(first + " " + m + " " + last)) == NameParts(first, last)
  {
    JoinedTokens([first, m, last]);
    JoinThree(first, m, last);
  }

  /** `First Last Jr.`: the suffix is dropped, with or without its periods. */
  lemma SplitNameDropsSuffix(first: string, last: string, suffix: string)
    requires IsToken(first) && IsToken(last) && IsToken(suffix)
    requires IsPersonalSuffix(Word(suffix))
    ensures SplitName(Str(first + " " + last + " " + suffix)) == NameParts(first, last)
  {
    var parts := [first, last, suffix];
    assert Split(first + " " + last + " " + suffix) == parts by {
      JoinedTokens(parts);
      JoinThree(first, last, suffix);
    }
    SuffixRule(Str(first + " " + last + " " + suffix));
  }

  /** With a personal suffix the token before it is the last name. */
  lemma SuffixRule(c: Cell)
    requires c.Str? && |Split(c.s)| >= 2 && IsPersonalSuffix(LastWord(Split(c.s)))
    ensures SplitName(c) == NameParts(Split(c.s)[0], Split(c.s)[|Split(c.s)| - 2])
  {
    SuffixKindsDisjoint(LastWord(Split(c.s)));
  }

  /** `First Last K`: a trailing initial makes the token before it the last name. */
  lemma SplitNameTrailingInitial(first: string, last: string, k: string)
    requires IsToken(first) && IsToken(last) && IsInitial(k)
    ensures SplitName(Str(first + " " + last + " " + k)) == NameParts(first, last)
  {
    JoinedTokens([first, last, k]);
    JoinThree(first, last, k);
  }

  /** `A B K Z`: with four tokens and an initial in the next-to-last place the
      token before the initial is taken as the last name, even when it is a
      second given name (`Mary Ann K Jones` gives `Mary`, `Ann`). */
  lemma SplitNameInitialBeforeLast(a: string, b: string, k: string, z: string)
    requires IsToken(a) && IsToken(b) && IsInitial(k) && IsToken(z) && IsPlainLast(z)
    ensures SplitName(Str(a + " " + b + " " + k + " " + z)) == NameParts(a, b)
  {
    JoinedTokens([a, b, k, z]);
    JoinFour(a, b, k, z);
  }

  /** `A & B Last`: the `&` is an ordinary token, so the first owner's first
      name and the shared last name are returned (unless `B` is a single
      letter, which the initial rule would take for a middle initial). */
  lemma SplitNameJointOwners(a: string, b: string, last: string)
    requires IsToken(a) && IsToken(b) && !IsInitial(b) && IsToken(last) && IsPlainLast(last)
    ensures SplitName(Str(a + " & " + b + " " + last)) == NameParts(a, last)
  {
    JointOwnersTokens(a, b, last);
  }

  lemma JointOwnersTokens(a: string, b: string, last: string)
    requires IsToken(a) && IsToken(b) && IsToken(last)
    ensures Split(a + " & " + b + " " + last) == [a, "&", b, last]
  {
    JoinedTokens([a, "&", b, last]);
    JoinFour(a, "&", b, last);
    assert a + " " + "&" + " " + b + " " + last == a + " & " + b + " " + last;
  }

  /** `Name ... LLC`: a business name is returned whole as the first name. */
  lemma SplitNameKeepsBusiness(a: string, b: string)
    requires IsToken(a) && IsToken(b)
    ensures SplitName(Str(a + " " + b + " LLC")) == NameParts(a + " " + b + " LLC", "")
  {
    var parts := [a, b, "LLC"];
    var s := a + " " + b + " LLC";
    assert Split(s) == parts && Strip(s) == s by {
      JoinedTokens(parts);
      JoinThree(a, b, "LLC");
      assert a + " " + b + " " + "LLC" == s;
    }
    assert Word("LLC") == "llc" by {
      assert RStripChar("LLC", '.') == "LLC";
      assert Lower("LLC") == "llc";
    }
  }

  lemma SuffixKindsDisjoint(w: string)
    requires IsPersonalSuffix(w)
    ensures !IsEntitySuffix(w)
  {
    if |w| == 3 {
      assert w[0] == 's';
    }
  }
}
