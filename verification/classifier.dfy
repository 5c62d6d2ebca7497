/** `is_personal_name`: the personal versus non-personal owner-name classifier.

    The name is lower-cased and searched for each business keyword pattern
    `\bword\b`; any hit makes the name non-personal. After the scan the code
    tests `'trust' or 'tr' or ('trustee' in name_lower and 'company' not in name_lower)`,
    which Python reads as `'trust' or ...`: a non-empty literal, always truthy.
    So every string that survives the scan is personal, and the structural
    name regex that follows is never consulted for a string. */
module Classifier {
  import opened Chars
  import opened Values
  import opened Text

  /** A keyword regex of the shape `\b w0 \b \b w1 \b ...`: the literal words,
      each wrapped in word boundaries. Almost every keyword has one word; two
      table entries have two, because a missing comma in the source made Python
      concatenate adjacent string literals into one pattern. */
  type Pattern = seq<string>

  /** `\b` at position `i`: exactly one of the characters around `i` is a word character. */
  predicate Boundary(s: string, i: int)
    requires 0 <= i <= |s|
  {
    (0 < i && IsWordChar(s[i - 1])) != (i < |s| && IsWordChar(s[i]))
  }

  /** The rest of the pattern `p` matches at `i`, each word followed by `\b`. */
  predicate MatchesFrom(s: string, p: Pattern, i: nat)
    requires i <= |s|
    decreases |p|
  {
    |p| == 0 ||
    (i + |p[0]| <= |s| && s[i..i + |p[0]|] == p[0] && Boundary(s, i + |p[0]|)
     && MatchesFrom(s, p[1..], i + |p[0]|))
  }

  /** The whole pattern, leading `\b` included, matches at `i`. */
  predicate MatchAt(s: string, p: Pattern, i: int)
    requires 0 <= i <= |s|
  {
    Boundary(s, i) && MatchesFrom(s, p, i)
  }

  /** `re.search(pattern, s)` finds a match. */
  ghost predicate PatternOccurs(s: string, p: Pattern) {
    exists i :: 0 <= i <= |s| && MatchAt(s, p, i)
  }

  /** `w` occurs in `s` with a word boundary on each side. */
  ghost predicate WholeWord(s: string, w: string) {
    exists i :: 0 <= i <= |s| - |w| && WholeWordAt(s, w, i)
  }

  predicate WholeWordAt(s: string, w: string, i: int)
    requires 0 <= i <= |s| - |w|
  {
    s[i..i + |w|] == w && Boundary(s, i) && Boundary(s, i + |w|)
  }

  /** The scan `re.search` performs: try every start position from `i` on. */
  function SearchFrom(s: string, p: Pattern, i: nat): (r: bool)
    requires i <= |s|
    ensures r <==> exists j :: i <= j <= |s| && MatchAt(s, p, j)
    decreases |s| - i
  {
    MatchAt(s, p, i) || (i < |s| && SearchFrom(s, p, i + 1))
  }

  function Search(s: string, p: Pattern): (r: bool)
    ensures r <==> PatternOccurs(s, p)
  {
    SearchFrom(s, p, 0)
  }

  /** The `for keyword in business_keywords` loop: does any keyword occur? */
  function AnyKeywordMatches(s: string, ks: seq<Pattern>): (r: bool)
    ensures r <==> exists j :: 0 <= j < |ks| && PatternOccurs(s, ks[j])
  {
    if |ks| == 0 then false
    else
      var rest := AnyKeywordMatches(s, ks[1..]);
      assert forall j :: 1 <= j < |ks| ==> ks[j] == ks[1..][j - 1];
      Search(s, ks[0]) || rest
  }

  function Singles(ws: seq<string>): (ps: seq<Pattern>)
    ensures |ps| == |ws|
    ensures forall i :: 0 <= i < |ws| ==> ps[i] == [ws[i]]
  {
    seq(|ws|, i requires 0 <= i < |ws| => [ws[i]])
  }

  /** The keywords of the table up to `mgmt`, in table order. */
  const KeywordsHead: seq<string> := [
    "llc", "inc", "corp", "ltd", "group", "l l p", "l l c",
    "company", "plc", "co", "enterprises", "property", "society",
    "home", "homes", "life", "development", "moving", "investments",
    "avenue", "rental", "albany", "organization", "tech", "fairfield", "university",
    "children", "the", "nation", "experts", "investing", "hilliard", "service",
    "johnstown", "village", "club", "council", "country", "office", "delaware",
    "licking", "urbancrest", "estate", "bapist", "union", "holding",
    "mission", "water", "church", "street", "national", "association", "house",
    "bank", "enterprise", "veteran", "housing", "insurance", "mortgage", "investment",
    "ohio", "city", "limited", "properties", "columbus", "fund", "mgmt"]

  /** The keywords between the two fused entries. */
  const KeywordsMiddle: seq<string> := [
    "hospital", "american", "partner", "lp", "llp", "partner", "department"]

  /** The keywords after the second fused entry. */
  const KeywordsTail: seq<string> := [
    "real estate", "entertainment", "county", "equity", "entity", "corporation",
    "community", "granville"]

  /** `\bCommissioners\b` and `\bmanagement\b` fused into one pattern. */
  const FusedCommissioners: Pattern := ["Commissioners", "management"]

  /** `\bboard\b` and `\bconstruction\b` fused into one pattern. */
  const FusedBoard: Pattern := ["board", "construction"]

  /** The table's layout: one-word patterns, a fused entry, one-word patterns,
      a fused entry, one-word patterns. */
  function KeywordTable(head: seq<string>, middle: seq<string>, tail: seq<string>): seq<Pattern> {
    Singles(head) + [FusedCommissioners] + Singles(middle) + [FusedBoard] + Singles(tail)
  }

  /** `business_keywords`, all 84 patterns in source order. */
  const BusinessKeywords: seq<Pattern> := KeywordTable(KeywordsHead, KeywordsMiddle, KeywordsTail)

  /** The keywords that can actually match. */
  const LiveKeywords: seq<string> := KeywordsHead + KeywordsMiddle + KeywordsTail

  /** Python truthiness of a string. */
  predicate Truthy(s: string) {
    |s| > 0
  }

  /** The trust test as Python parses it:
      `'trust' or 'tr' or (('trustee' in name_lower) and ('company' not in name_lower))`.
      Its first operand is a non-empty literal, so it holds whatever the name. */
  function TrustClause(nameLower: string): (r: bool)
    ensures r
  {
    Truthy("trust") || Truthy("tr") || (Contains(nameLower, "trustee") && !Contains(nameLower, "company"))
  }

  /** `is_personal_name(name)`. `structuralMatch` stands for the anchored,
      case-insensitive name regex of the source, which is not modelled: the
      contract shows the result never depends on it. */
  function IsPersonalName(c: Cell, structuralMatch: string -> bool): (r: bool)
    ensures c.Missing? ==> !r
    ensures c.Str? ==>
      (r <==> !exists j :: 0 <= j < |BusinessKeywords| && PatternOccurs(Lower(c.s), BusinessKeywords[j]))
  {
    match c
    case Missing => false
    case Str(name) =>
      var nameLower := Lower(name);
      if AnyKeywordMatches(nameLower, BusinessKeywords) then false
      else if TrustClause(nameLower) then true
      else structuralMatch(name)
  }

  // ---------------------------------------------------------------------------
  // Which keywords are live

  /** A pattern that glues two words with no separator between them (the
      junction needs a `\b` between two word characters) matches nothing. */
  lemma FusedPatternNeverMatches(s: string, p: Pattern)
    requires |p| >= 2 && |p[0]| > 0 && |p[1]| > 0
    requires IsWordChar(p[0][|p[0]| - 1]) && IsWordChar(p[1][0])
    ensures !PatternOccurs(s, p)
  {
    forall i | 0 <= i <= |s|
      ensures !MatchAt(s, p, i)
    {
      FusedPatternFailsAt(s, p, i);
    }
  }

  lemma FusedPatternFailsAt(s: string, p: Pattern, i: nat)
    requires i <= |s|
    requires |p| >= 2 && |p[0]| > 0 && |p[1]| > 0
    requires IsWordChar(p[0][|p[0]| - 1]) && IsWordChar(p[1][0])
    ensures !MatchesFrom(s, p, i)
  {
    var m := i + |p[0]|;
    assert p[1..][0] == p[1];
    if m < |s| && s[i..m] == p[0] {
      assert s[m - 1] == p[0][|p[0]| - 1];
      if !IsWordChar(s[m]) {
        assert s[m] != p[1][0];
        assert m + |p[1]| > |s| || s[m..m + |p[1]|] != p[1];
      }
    }
  }

  /** A one-word pattern is exactly a whole-word occurrence. */
  lemma SingleWordPattern(s: string, w: string)
    ensures PatternOccurs(s, [w]) <==> WholeWord(s, w)
  {
    if PatternOccurs(s, [w]) {
      var i :| 0 <= i <= |s| && MatchAt(s, [w], i);
      SingleWordMatchAt(s, w, i);
    }
    if WholeWord(s, w) {
      var i :| 0 <= i <= |s| - |w| && WholeWordAt(s, w, i);
      SingleWordMatchAt(s, w, i);
    }
  }

  lemma SingleWordMatchAt(s: string, w: string, i: nat)
    requires i <= |s|
    ensures MatchAt(s, [w], i) <==> i + |w| <= |s| && WholeWordAt(s, w, i)
  {
    assert [w][0] == w;
    assert [w][1..] == [];
    if i + |w| <= |s| {
      assert MatchesFrom(s, [w][1..], i + |w|);
    }
  }

  /** Every entry of a table laid out like `business_keywords` is one of its
      one-word keywords or one of the two fused patterns, and every one-word
      keyword is an entry. */
  lemma TableShape(head: seq<string>, middle: seq<string>, tail: seq<string>)
    ensures forall j :: 0 <= j < |KeywordTable(head, middle, tail)| ==>
      var p := KeywordTable(head, middle, tail)[j];
      p == FusedCommissioners || p == FusedBoard || (|p| == 1 && p[0] in head + middle + tail)
    ensures forall w :: w in head + middle + tail ==> [w] in KeywordTable(head, middle, tail)
  {
    var table := KeywordTable(head, middle, tail);
    var live := head + middle + tail;
    var a, b := |head|, |middle|;
    forall j | 0 <= j < |table|
      ensures table[j] == FusedCommissioners || table[j] == FusedBoard
        || (|table[j]| == 1 && table[j][0] in live)
    {
      if j < a {
        assert table[j] == [head[j]];
        assert live[j] == head[j];
      } else if j == a {
      } else if j < a + 1 + b {
        assert table[j] == [middle[j - a - 1]];
        assert live[j - 1] == middle[j - a - 1];
      } else if j == a + 1 + b {
      } else {
        assert table[j] == [tail[j - a - b - 2]];
        assert live[j - 2] == tail[j - a - b - 2];
      }
    }
    forall w | w in live
      ensures [w] in table
    {
      var i :| 0 <= i < |live| && live[i] == w;
      if i < a {
        assert table[i] == [w];
      } else if i < a + b {
        assert table[i + 1] == [w];
      } else {
        assert table[i + 2] == [w];
      }
    }
  }

  /** The scan of such a table hits exactly when one of its one-word keywords
      occurs as a whole word. */
  lemma TableHitIsWholeWord(s: string, head: seq<string>, middle: seq<string>, tail: seq<string>)
    ensures (exists j :: 0 <= j < |KeywordTable(head, middle, tail)| && PatternOccurs(s, KeywordTable(head, middle, tail)[j]))
        <==> (exists w :: w in head + middle + tail && WholeWord(s, w))
  {
    var table := KeywordTable(head, middle, tail);
    var live := head + middle + tail;
    TableShape(head, middle, tail);
    FusedPatternNeverMatches(s, FusedCommissioners);
    FusedPatternNeverMatches(s, FusedBoard);
    if j :| 0 <= j < |table| && PatternOccurs(s, table[j]) {
      var p := table[j];
      assert |p| == 1 && p[0] in live;
      assert p == [p[0]];
      SingleWordPattern(s, p[0]);
    }
    if w :| w in live && WholeWord(s, w) {
      SingleWordPattern(s, w);
      var j :| 0 <= j < |table| && table[j] == [w];
      assert PatternOccurs(s, table[j]);
    }
  }

  /** The classifier, stated without the table: a string is personal exactly
      when no live keyword occurs as a whole word in its lower-cased form;
      anything that is not a string is non-personal. */
  lemma IsPersonalNameCharacterization(c: Cell, structuralMatch: string -> bool)
    ensures c.Missing? ==> !IsPersonalName(c, structuralMatch)
    ensures c.Str? ==>
      (IsPersonalName(c, structuralMatch) <==> forall w :: w in LiveKeywords ==> !WholeWord(Lower(c.s), w))
  {
    if c.Str? {
      TableHitIsWholeWord(Lower(c.s), KeywordsHead, KeywordsMiddle, KeywordsTail);
    }
  }

  /** A live keyword standing as a whole word makes a name non-personal. */
  lemma LiveKeywordMakesNonPersonal(name: string, k: nat, i: nat, structuralMatch: string -> bool)
    requires k < |LiveKeywords|
    requires i + |LiveKeywords[k]| <= |name| && WholeWordAt(Lower(name), LiveKeywords[k], i)
    ensures !IsPersonalName(Str(name), structuralMatch)
  {
    var w := LiveKeywords[k];
    assert w in LiveKeywords;
    assert WholeWord(Lower(name), w);
    IsPersonalNameCharacterization(Str(name), structuralMatch);
  }

  /** Classification depends on the name only up to letter case. */
  lemma IsPersonalNameIgnoresCase(a: string, b: string, m1: string -> bool, m2: string -> bool)
    requires Lower(a) == Lower(b)
    ensures IsPersonalName(Str(a), m1) == IsPersonalName(Str(b), m2)
  {
  }
}
