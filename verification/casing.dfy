/** `to_proper_case`: Python's `str.title()` applied to string cells. */
module Casing {
  import opened Chars
  import opened Values

  /** The loop of `str.title()`: each character is upper-cased when the
      character before it was not cased and lower-cased when it was; on ASCII
      the cased characters are the letters. `previousIsCased` is the state the
      loop carries from one character to the next. */
  function TitleFrom(s: string, previousIsCased: bool): (r: string)
    ensures |r| == |s|
  {
    if |s| == 0 then ""
    else
      var c := if previousIsCased then ToLower(s[0]) else ToUpper(s[0]);
      [c] + TitleFrom(s[1..], IsLetter(c))
  }

  /** `str.title()`: each character depends only on itself and on whether
      the character before it is a letter. */
  function Title(s: string): (r: string)
    ensures |r| == |s|
    ensures forall i :: 0 <= i < |s| ==>
      r[i] == (if StartsWord(s, i) then ToUpper(s[i]) else ToLower(s[i]))
  {
    TitleFromCharacterization(s, false);
    TitleFrom(s, false)
  }

  /** Where `str.title()` starts a word: the first character, or one after a
      character that is not a letter (a space, a digit, an apostrophe, a hyphen). */
  predicate StartsWord(s: string, i: int)
    requires 0 <= i < |s|
  {
    i == 0 || !IsLetter(s[i - 1])
  }

  /** `to_proper_case(name)`: strings are title-cased, anything else is returned as is. */
  function ToProperCase(c: Cell): (r: Cell)
    ensures c.Missing? ==> r == c
    ensures c.Str? ==> r.Str? && |r.s| == |c.s|
    // a letter that starts a word is upper case, every other letter lower case
    ensures c.Str? ==> forall i :: 0 <= i < |c.s| ==>
      r.s[i] == (if StartsWord(c.s, i) then ToUpper(c.s[i]) else ToLower(c.s[i]))
  {
    match c
    case Missing => c
    case Str(s) => Str(Title(s))
  }

  lemma {:induction false} TitleFromCharacterization(s: string, previousIsCased: bool)
    ensures forall i :: 0 <= i < |s| ==>
      TitleFrom(s, previousIsCased)[i] ==
        (if (if i == 0 then previousIsCased else IsLetter(s[i - 1]))
         then ToLower(s[i]) else ToUpper(s[i]))
    decreases |s|
  {
    if |s| > 0 {
      var c := if previousIsCased then ToLower(s[0]) else ToUpper(s[0]);
      CaseMapKeepsClass(s[0]);
      TitleFromCharacterization(s[1..], IsLetter(c));
      var r := TitleFrom(s, previousIsCased);
      assert r == [c] + TitleFrom(s[1..], IsLetter(s[0]));
      forall i | 1 <= i < |s|
        ensures r[i] == (if IsLetter(s[i - 1]) then ToLower(s[i]) else ToUpper(s[i]))
      {
        assert r[i] == TitleFrom(s[1..], IsLetter(s[0]))[i - 1];
        assert s[1..][i - 1] == s[i];
        if i > 1 {
          assert s[1..][i - 2] == s[i - 1];
        }
      }
    }
  }

  /** Title-casing keeps every character's class: letters stay letters and
      everything else is left exactly as it was. */
  lemma TitleKeepsNonLetters(s: string)
    ensures forall i :: 0 <= i < |s| ==>
      IsLetter(Title(s)[i]) == IsLetter(s[i]) && (!IsLetter(s[i]) ==> Title(s)[i] == s[i])
  {
    forall i | 0 <= i < |s|
      ensures IsLetter(Title(s)[i]) == IsLetter(s[i])
    {
      CaseMapKeepsClass(s[i]);
    }
  }

  /** Title-casing twice is the same as title-casing once. */
  lemma TitleIdempotent(s: string)
    ensures Title(Title(s)) == Title(s)
  {
    var t := Title(s);
    TitleKeepsNonLetters(s);
    forall i | 0 <= i < |s|
      ensures Title(t)[i] == t[i]
    {
      CaseMapKeepsClass(s[i]);
      if i > 0 {
        assert IsLetter(t[i - 1]) == IsLetter(s[i - 1]);
      }
    }
  }

  /** The original case of the input makes no difference: `str.title()` of a
      name and of its lower-cased form agree. */
  lemma TitleIgnoresCase(s: string)
    ensures Title(Lower(s)) == Title(s)
  {
    var l := Lower(s);
    forall i | 0 <= i < |s|
      ensures Title(l)[i] == Title(s)[i]
    {
      CaseMapKeepsClass(s[i]);
      if i > 0 {
        CaseMapKeepsClass(s[i - 1]);
      }
    }
  }

  /** `to_proper_case` applied twice changes nothing more. */
  lemma ToProperCaseIdempotent(c: Cell)
    ensures ToProperCase(ToProperCase(c)) == ToProperCase(c)
  {
    if c.Str? {
      TitleIdempotent(c.s);
    }
  }

  /** A word after an apostrophe or a digit is capitalised too. */
  lemma TitleExamples()
    ensures Title("jOHN smith") == "John Smith"
    ensures Title("o'neil") == "O'Neil"
  {
    var a, b := Title("jOHN smith"), Title("o'neil");
  }
}
