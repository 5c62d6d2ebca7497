/** Column detection: the spreadsheet's headers are normalised
    (`create_standardized_column_map`) and each standard field is mapped to
    the header of its first alias that is present (`map_columns`). */
module Columns {
  import opened Chars
  import opened Values
  import opened Text

  /** A character of the class `[\s_]`. */
  predicate IsSep(c: char) {
    IsSpace(c) || c == '_'
  }

  /** `s` with its leading run of separators removed. */
  function DropSeps(s: string): (r: string)
    ensures |r| <= |s| && r == s[|s| - |r|..]
    ensures |r| > 0 ==> !IsSep(r[0])
    ensures forall i :: 0 <= i < |s| - |r| ==> IsSep(s[i])
  {
    if |s| > 0 && IsSep(s[0]) then DropSeps(s[1..]) else s
  }

  /** `re.sub(r'[\s_]+', ' ', s)`: every maximal run of whitespace and
      underscores becomes one space. The result has separators only as
      single spaces, keeps every other character in order, and starts with a
      separator exactly when `s` does. */
  function Collapse(s: string): (r: string)
    ensures |r| <= |s|
    ensures Collapsed(r)
    ensures Kept(r) == Kept(s)
    ensures |s| > 0 ==> |r| > 0 && IsSep(r[0]) == IsSep(s[0])
    decreases |s|
  {
    if |s| == 0 then ""
    else if IsSep(s[0]) then
      var rest := Collapse(DropSeps(s[1..]));
      KeptOfLeadingRun(s);
      ConsFacts(' ', rest);
      [' '] + rest
    else
      var rest := Collapse(s[1..]);
      ConsFacts(s[0], rest);
      [s[0]] + rest
  }

  /** A leading run of separators contributes nothing to `Kept`. */
  lemma KeptOfLeadingRun(s: string)
    requires |s| > 0 && IsSep(s[0])
    ensures Kept(s) == Kept(DropSeps(s[1..]))
  {
    var t := s[1..];
    var d := DropSeps(t);
    var lead := t[..|t| - |d|];
    assert t == lead + d;
    assert forall i :: 0 <= i < |lead| ==> lead[i] == t[i];
    KeptOfSeps(lead);
    KeptAppend(lead, d);
    assert Kept(s) == Kept(t);
  }

  /** `Kept` and `Collapsed` of a text with one more character in front. */
  lemma ConsFacts(c: char, t: string)
    ensures Kept([c] + t) == (if IsSep(c) then "" else [c]) + Kept(t)
    ensures Collapsed([c] + t) <==>
      Collapsed(t) && (IsSep(c) ==> c == ' ' && (|t| == 0 || !IsSep(t[0])))
  {
    assert ([c] + t)[1..] == t;
  }

  /** Separators only appear as single spaces: each separator is a space
      and is not followed by another separator. */
  predicate Collapsed(s: string) {
    |s| == 0 ||
    ((IsSep(s[0]) ==> s[0] == ' ' && (|s| == 1 || !IsSep(s[1]))) && Collapsed(s[1..]))
  }

  /** The characters that are not separators, in order. */
  function Kept(s: string): string {
    if |s| == 0 then "" else (if IsSep(s[0]) then "" else [s[0]]) + Kept(s[1..])
  }

  /** `re.sub(r'[\s_]+', ' ', col.strip().lower())`: the key a header or an
      alias is compared under. It has only single spaces between its parts
      and keeps every other character of the stripped, lower-cased name in
      order. */
  function Normalize(name: string): (r: string)
    ensures Collapsed(r)
    ensures Kept(r) == Kept(Lower(Strip(name)))
  {
    Collapse(Lower(Strip(name)))
  }

  lemma {:induction false} KeptOfSeps(s: string)
    requires forall i :: 0 <= i < |s| ==> IsSep(s[i])
    ensures Kept(s) == ""
    decreases |s|
  {
    if |s| > 0 {
      KeptOfSeps(s[1..]);
    }
  }

  lemma {:induction false} KeptAppend(a: string, b: string)
    ensures Kept(a + b) == Kept(a) + Kept(b)
    decreases |a|
  {
    if |a| > 0 {
      assert (a + b)[1..] == a[1..] + b;
      KeptAppend(a[1..], b);
    } else {
      assert a + b == b;
    }
  }

  /** Text already in collapsed form is left alone. */
  lemma {:induction false} CollapseOfCollapsed(s: string)
    requires Collapsed(s)
    ensures Collapse(s) == s
    decreases |s|
  {
    if |s| > 0 {
      if IsSep(s[0]) {
        assert DropSeps(s[1..]) == s[1..];
        CollapseOfCollapsed(s[1..]);
        assert s == " " + s[1..];
      } else {
        CollapseOfCollapsed(s[1..]);
        assert s == [s[0]] + s[1..];
      }
    }
  }

  /** Collapsing twice is the same as collapsing once. */
  lemma CollapseIdempotent(s: string)
    ensures Collapse(Collapse(s)) == Collapse(s)
  {
    CollapseOfCollapsed(Collapse(s));
  }

  /** Each maximal run of separators becomes exactly one space, in its place:
      the text on either side is collapsed on its own. */
  lemma CollapseRun(x: string, w: string, y: string)
    requires |w| > 0 && forall i :: 0 <= i < |w| ==> IsSep(w[i])
    requires |x| == 0 || !IsSep(x[|x| - 1])
    requires |y| == 0 || !IsSep(y[0])
    ensures Collapse(x + w + y) == Collapse(x) + " " + Collapse(y)
  {
    var wy := w + y;
    Associative(x, w, y);
    CollapseAppend(x, wy);
    CollapseOfRun(w, y);
    Associative(Collapse(x), " ", Collapse(y));
  }

  /** A run of separators followed by a non-separator collapses to one space. */
  lemma CollapseOfRun(w: string, y: string)
    requires |w| > 0 && forall i :: 0 <= i < |w| ==> IsSep(w[i])
    requires |y| == 0 || !IsSep(y[0])
    ensures Collapse(w + y) == " " + Collapse(y)
  {
    var wy := w + y;
    assert wy[0] == w[0];
    assert wy[1..] == w[1..] + y;
    DropSepsOfRun(w[1..], y);
  }

  /** Text that is empty or ends in a non-separator collapses independently
      of what follows it. */
  lemma {:induction false} CollapseAppend(x: string, t: string)
    requires |x| == 0 || !IsSep(x[|x| - 1])
    ensures Collapse(x + t) == Collapse(x) + Collapse(t)
    decreases |x|
  {
    if |x| == 0 {
      assert x + t == t;
    } else {
      var xt := x + t;
      assert xt[0] == x[0];
      assert xt[1..] == x[1..] + t;
      if IsSep(x[0]) {
        var d := DropSeps(x[1..]);
        DropSepsAppend(x[1..], t);
        DropSepsKeepsLast(x[1..]);
        CollapseAppend(d, t);
        assert Collapse(xt) == " " + Collapse(d + t);
        assert Collapse(x) == " " + Collapse(d);
        Associative(" ", Collapse(d), Collapse(t));
      } else {
        CollapseAppend(x[1..], t);
        assert Collapse(xt) == [x[0]] + Collapse(x[1..] + t);
        assert Collapse(x) == [x[0]] + Collapse(x[1..]);
        Associative([x[0]], Collapse(x[1..]), Collapse(t));
      }
    }
  }

  /** Dropping leading separators keeps a last character that is not one. */
  lemma DropSepsKeepsLast(a: string)
    requires |a| > 0 && !IsSep(a[|a| - 1])
    ensures |DropSeps(a)| > 0 && DropSeps(a)[|DropSeps(a)| - 1] == a[|a| - 1]
  {
    var d := DropSeps(a);
    assert !IsSep(a[|a| - 1]);
    assert d[|d| - 1] == a[|a| - 1];
  }

  lemma {:induction false} DropSepsAppend(a: string, t: string)
    requires |a| > 0 && !IsSep(a[|a| - 1])
    ensures DropSeps(a + t) == DropSeps(a) + t
    decreases |a|
  {
    if IsSep(a[0]) {
      assert (a + t)[1..] == a[1..] + t;
      DropSepsAppend(a[1..], t);
    }
  }

  lemma {:induction false} DropSepsOfRun(w: string, y: string)
    requires forall i :: 0 <= i < |w| ==> IsSep(w[i])
    requires |y| == 0 || !IsSep(y[0])
    ensures DropSeps(w + y) == y
    decreases |w|
  {
    if |w| > 0 {
      assert (w + y)[1..] == w[1..] + y;
      DropSepsOfRun(w[1..], y);
    } else {
      assert w + y == y;
    }
  }

  /** `{key(col): col for col in cols}`: each header under its key; when two
      headers share a key the later one wins. */
  function ColumnMap(cols: seq<string>, key: string -> string): (m: map<string, string>)
    ensures m.Keys == set i | 0 <= i < |cols| :: key(cols[i])
    ensures forall k :: k in m ==> m[k] in cols && key(m[k]) == k
    decreases |cols|
  {
    if |cols| == 0 then map[]
    else
      var rest := ColumnMap(cols[..|cols| - 1], key);
      assert forall i :: 0 <= i < |cols| - 1 ==> cols[..|cols| - 1][i] == cols[i];
      rest[key(cols[|cols| - 1]) := cols[|cols| - 1]]
  }

  /** `cols[i]` has key `k` and no later header does. */
  predicate LastWith(cols: seq<string>, key: string -> string, k: string, i: int)
    requires 0 <= i < |cols|
  {
    key(cols[i]) == k && forall j :: i < j < |cols| ==> key(cols[j]) != k
  }

  /** Every key maps to the last header that has it. */
  lemma {:induction false} ColumnMapLastWins(cols: seq<string>, key: string -> string, k: string)
    requires k in ColumnMap(cols, key)
    ensures exists i :: 0 <= i < |cols| && LastWith(cols, key, k, i) && ColumnMap(cols, key)[k] == cols[i]
    decreases |cols|
  {
    var n := |cols| - 1;
    var init := cols[..n];
    var m, mi := ColumnMap(cols, key), ColumnMap(init, key);
    assert m == mi[key(cols[n]) := cols[n]];
    if key(cols[n]) == k {
      assert LastWith(cols, key, k, n);
    } else {
      assert k in mi && m[k] == mi[k];
      ColumnMapLastWins(init, key, k);
      var i :| 0 <= i < |init| && LastWith(init, key, k, i) && ColumnMap(init, key)[k] == init[i];
      assert cols[i] == init[i];
      forall j | i < j < |cols|
        ensures key(cols[j]) != k
      {
        if j < n {
          assert cols[j] == init[j];
        }
      }
      assert LastWith(cols, key, k, i);
    }
  }

  /** `create_standardized_column_map(df_columns)`: every header is found
      under its normalised name, and each normalised name leads back to a
      header that normalises to it. */
  function StandardizedColumnMap(cols: seq<string>): (m: map<string, string>)
    ensures m.Keys == set i | 0 <= i < |cols| :: Normalize(cols[i])
    ensures forall k :: k in m ==> m[k] in cols && Normalize(m[k]) == k
  {
    ColumnMap(cols, Normalize)
  }

  /** The index of the first of `keys` that is a key of `std`: the
      `for ... break ... else` search of `map_columns`. */
  function FirstPresent(keys: seq<string>, std: map<string, string>): (r: Option<nat>)
    ensures r.Some? ==> r.value < |keys| && keys[r.value] in std
    ensures r.Some? ==> forall j :: 0 <= j < r.value ==> keys[j] !in std
    ensures r.None? ==> forall j :: 0 <= j < |keys| ==> keys[j] !in std
  {
    if |keys| == 0 then None
    else if keys[0] in std then Some(0)
    else
      match FirstPresent(keys[1..], std)
      case None => None
      case Some(i) =>
        assert forall j :: 1 <= j <= i + 1 ==> keys[j] == keys[1..][j - 1];
        Some(i + 1)
  }

  /** The header chosen for one field from its aliases, or `"none"`. */
  function HeaderFor(aliases: seq<string>, std: map<string, string>, key: string -> string): (h: string)
    ensures h == "none" || h in std.Values
  {
    var keys := seq(|aliases|, i requires 0 <= i < |aliases| => key(aliases[i]));
    match FirstPresent(keys, std)
    case None => "none"
    case Some(i) => std[keys[i]]
  }

  /** The loop of `map_columns`, with aliases compared under `key`. */
  function MapColumnsBy(config: map<string, seq<string>>, std: map<string, string>, key: string -> string): (r: map<string, string>)
    ensures r.Keys == config.Keys
    ensures forall k :: k in r ==> r[k] == "none" || r[k] in std.Values
  {
    map k | k in config :: HeaderFor(config[k], std, key)
  }

  /** `map_columns(df, config, standardized_columns_map)`: one entry per
      configured field, each `"none"` or a header taken from `std`. */
  function MapColumns(config: map<string, seq<string>>, std: map<string, string>): (r: map<string, string>)
    ensures r.Keys == config.Keys
    ensures forall k :: k in r ==> r[k] == "none" || r[k] in std.Values
  {
    MapColumnsBy(config, std, Normalize)
  }

  /** What `map_columns` picks for a field: `"none"` when no alias is
      present, and otherwise the header of the first alias that is. */
  lemma MapColumnsChoice(config: map<string, seq<string>>, std: map<string, string>, key: string -> string, k: string)
    requires k in config
    ensures (forall j :: 0 <= j < |config[k]| ==> key(config[k][j]) !in std) ==>
      MapColumnsBy(config, std, key)[k] == "none"
    ensures forall i ::
      (0 <= i < |config[k]| && key(config[k][i]) in std &&
       (forall j :: 0 <= j < i ==> key(config[k][j]) !in std)) ==>
      MapColumnsBy(config, std, key)[k] == std[key(config[k][i])]
  {
    assert MapColumnsBy(config, std, key)[k] == HeaderFor(config[k], std, key);
    HeaderForChoice(config[k], std, key);
  }

  lemma HeaderForChoice(aliases: seq<string>, std: map<string, string>, key: string -> string)
    ensures (forall j :: 0 <= j < |aliases| ==> key(aliases[j]) !in std) ==> HeaderFor(aliases, std, key) == "none"
    ensures forall i ::
      (0 <= i < |aliases| && key(aliases[i]) in std && (forall j :: 0 <= j < i ==> key(aliases[j]) !in std)) ==>
      HeaderFor(aliases, std, key) == std[key(aliases[i])]
  {
    var keys := seq(|aliases|, i requires 0 <= i < |aliases| => key(aliases[i]));
    assert forall j :: 0 <= j < |keys| ==> keys[j] == key(aliases[j]);
  }

  /** Against a real sheet, a field is mapped either to `"none"` or to one of
      the sheet's headers whose key is the key of one of the field's aliases. */
  lemma MapColumnsPicksHeaders(config: map<string, seq<string>>, cols: seq<string>, key: string -> string, k: string)
    requires k in config
    ensures var r := MapColumnsBy(config, ColumnMap(cols, key), key);
      r[k] == "none" ||
      exists i, j :: 0 <= i < |cols| && 0 <= j < |config[k]| &&
        r[k] == cols[i] && key(cols[i]) == key(config[k][j])
  {
    var std := ColumnMap(cols, key);
    var aliases := config[k];
    var keys := seq(|aliases|, i requires 0 <= i < |aliases| => key(aliases[i]));
    match FirstPresent(keys, std)
    case None =>
    case Some(j) =>
      ColumnMapLastWins(cols, key, keys[j]);
  }

  /** The program's pipeline: headers normalised by `create_standardized_column_map`,
      then `map_columns`. Each field gets `"none"` or a header of the sheet that
      normalises like one of the field's aliases. */
  lemma MapColumnsOfSheet(config: map<string, seq<string>>, cols: seq<string>, k: string)
    requires k in config
    ensures var r := MapColumns(config, StandardizedColumnMap(cols));
      r.Keys == config.Keys &&
      (r[k] == "none" ||
       exists i, j :: 0 <= i < |cols| && 0 <= j < |config[k]| &&
         r[k] == cols[i] && Normalize(cols[i]) == Normalize(config[k][j]))
  {
    MapColumnsPicksHeaders(config, cols, Normalize, k);
  }

  /** The fields the program looks for and the header spellings it accepts
      for each, in order of preference. */
  function ColumnMappingConfig(): map<string, seq<string>> {
    map[
    "property_address" := ["property address", "address", "property_address", "site address", "Street", "street_address"],
    "property_city" := ["property city", "city", "property_city"],
    "property_state" := ["property state", "state", "property_state", "region"],
    "property_zip" := ["property zip", "property zipcode", "zip", "zipcode", "property_zip", "property_zipcode",
                       "zip code", "PostalCode", "postal_code"],
    "mailing_address" := ["mailing address", "owner address", "mailing_address", "owner_address"],
    "mailing_city" := ["mailing city", "owner city", "mailing_city", "owner_city"],
    "mailing_state" := ["mailing state", "owner state", "mailing_state", "owner_state"],
    "mailing_zip" := ["mailing zip", "mailing zipcode", "owner zip", "owner zipcode", "mailing_zip", "mailing_zipcode",
                      "owner_zip", "owner_zipcode"],
    "full_name" := ["full name", "owner full name", "first owner full name", "full_name", "owner_full_name",
                    "first_owner_full_name", "owner contact name", "Owner Name"],
    "first_name" := ["first name", "owner first name", "first owner first name", "first_name", "owner_first_name",
                     "first_owner_first_name"],
    "last_name" := ["last name", "owner last name", "first owner last name", "last_name", "owner_last_name",
                    "first_owner_last_name"]
    ]
  }
}
