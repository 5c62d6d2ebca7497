# Owner-name helpers of the Supprassor property-record cleaner

Supprassor cleans spreadsheets of property-ownership records before they go
to a mailing system. The decision logic sits in a handful of helpers in
`app.py`, and this project models those helpers in Dafny and proves what
they do:

- `is_personal_name` decides whether an owner name is a person or a business.
  It scans the lower-cased name for business keywords matched as whole
  words. Then it evaluates a trust test that is always true, so the
  structural name regex after it is never applied (module `Classifier`).
- `split_name` splits a full owner name into a first and a last name by an
  ordered chain of rules: blank, single token, entity suffix, personal
  suffix, middle initial, trailing initial, default (module `Splitter`).
- `reorder_name` rewrites `Initial First Last` (`W. John Doe`) as
  `First Initial Last` (`John W. Doe`) (module `Reorder`).
- `to_proper_case` applies Python's `str.title()` (module `Casing`).
- `clean_full_zip` removes commas and `.0` from a ZIP value and keeps at most the first five
  characters (module `Zip`).
- `create_standardized_column_map` and `map_columns` find the sheet's
  columns by comparing headers and aliases after normalising both (module
  `Columns`, with the alias table `column_mapping_config` as
  `ColumnMappingConfig`).

Shared pieces: `Chars` models ASCII character classes and case mapping as
Python sees them. `Text` models `str.strip()`, `str.split()`, `" ".join`
and `str.rstrip(ch)`. `Values` holds the cell type: a cell is `Str(s)` or
`Missing`, and `Missing` stands for NaN, `None` or any other non-string
value.

Text is ASCII. Python's whitespace (`str.isspace`, `str.split`, `\s`) is
then space, the controls 9 to 13 and the separators 28 to 31. The
characters of `\w`, which decide where `\b` falls, are letters, digits and
`_`.

## Where the code and its own comments disagree

The model follows the code in each case below.

- **Trust test.** The comment at `app.py:28` says that a name containing
  "Trust" and not "Company" is personal. The code at `app.py:29` reads
  `'trust' or 'tr' or ('trustee' in ... and ...)`. Its first operand is a
  non-empty literal, so the test is always true. Every string that gets
  past the keyword scan is therefore personal (`TrustClause`).
- **Structural regex.** The comments at `app.py:32-36` describe a regex
  that should recognise personal names. For a string the function has
  already returned at `app.py:30`, so the regex is never applied to one.
  For a non-string the regex is compiled but not applied, and the function
  returns `False` at `app.py:53`. The model keeps the regex as an opaque
  parameter (`structuralMatch`) and proves that the result never depends
  on it.
- **Fused keywords.** The comment at `app.py:5` says that `department` and
  `board` were added as keywords. Two commas are missing from the keyword
  table, at the ends of `app.py:16` and `app.py:17`. Python joins the
  adjacent literals into `\bCommissioners\b\bmanagement\b` and
  `\bboard\b\bconstruction\b`. Neither pattern can ever match, because
  `\b\b` falls between two word characters. So `board`, `construction`,
  `management` and `commissioners` are not business keywords in the code
  (`FusedPatternNeverMatches`, `IsPersonalNameCharacterization`).
- **Title case.** `to_proper_case` calls `str.title()`. That method
  capitalises every letter that follows a non-letter and lower-cases every
  other letter, not only the first letter of each whitespace-separated
  word. So `o'neil` becomes `O'Neil` and `3rd` becomes `3Rd`
  (`Title`, `TitleExamples`).
- **Trailing newline.** The `reorder_name` pattern ends in `$`. In Python,
  `$` also matches just before a final `\n`. So `W. John Doe\n` is
  reordered too, and the newline is dropped from the result
  (`Match`, `ReorderName`).
- **Joint owners.** The `&` branch of `split_name` builds two token lists
  and never reads them. A joint name is split by the ordinary rules, with
  `&` as a token. `John & Mary Smith` gives `John` and `Smith`
  (`SplitNameJointOwners`). `John & M Smith` gives `John` and `&`, because
  the one-letter second owner triggers the middle-initial rule at
  `app.py:131-134` (`SplitNameInitialBeforeLast`).

## Model

| member | source | states |
|---|---|---|
| Chars.Lower | app.py:23 | `str.lower()` keeps the length, leaves no upper-case letter, and keeps every character the same letter or the same non-letter |
| Chars.LowerFixedPoints | app.py:23 | a text is unchanged by `str.lower()` exactly when it has no upper-case letter, so lower-casing twice equals lower-casing once |
| Text.Strip | app.py:103 | the result is empty exactly for all-whitespace text; otherwise it is the slice between the leading and trailing whitespace, and it neither starts nor ends with whitespace |
| Text.Split | app.py:116 | every token is non-empty and has no whitespace; there are no tokens exactly when the text is all whitespace |
| Text.SplitKeepsText | app.py:116 | the tokens, concatenated, are the non-whitespace characters of the text in order |
| Text.SplitOfStrip | app.py:103-116 | stripping before splitting does not change the tokens |
| Text.SplitJoinSpace | app.py:116 | joining tokens with single spaces and splitting again gives the same tokens back |
| Text.JoinedTokens | app.py:103-116 | tokens joined with single spaces are unchanged by strip and split back into the same tokens |
| Text.SplitDropsTrailingSpace | app.py:116 | whitespace at the end adds no tokens |
| Text.RStripChar | app.py:117 | `rstrip(ch)` leaves a prefix that does not end in `ch`, and everything it drops is `ch` |
| Classifier.Search | app.py:25 | `re.search(keyword, name_lower)` succeeds exactly when the pattern matches at some position of the text |
| Classifier.SearchFrom | app.py:25 | the search from position `i` succeeds exactly when the pattern matches at some start `j >= i` |
| Classifier.AnyKeywordMatches | app.py:24-26 | the loop finds a hit exactly when some pattern of the list occurs |
| Classifier.TrustClause | app.py:29 | the trust test is true for every name |
| Classifier.IsPersonalName | app.py:4-53 | a non-string is not personal; a string is personal exactly when no pattern of the table occurs in its lower-cased form, whatever the structural regex says |
| Classifier.FusedPatternNeverMatches | app.py:16-18 | a pattern that joins two words with `\b\b` between two word characters matches no text |
| Classifier.SingleWordPattern | app.py:7-18 | a one-word pattern `\bw\b` matches exactly when `w` occurs with a word boundary on each side |
| Classifier.TableShape | app.py:6-19 | every table entry is a one-word keyword or one of the two fused patterns, and every one-word keyword is an entry |
| Classifier.TableHitIsWholeWord | app.py:6-26 | the keyword scan hits exactly when a one-word keyword occurs as a whole word |
| Classifier.IsPersonalNameCharacterization | app.py:4-30 | a string is personal exactly when none of the live keywords occurs as a whole word in its lower-cased form; a non-string is never personal |
| Classifier.LiveKeywordMakesNonPersonal | app.py:24-26 | any live keyword standing as a whole word makes the name non-personal |
| Classifier.IsPersonalNameIgnoresCase | app.py:23-30 | two names that agree after lower-casing get the same classification |
| Splitter.SplitName | app.py:98-145 | missing or blank gives two empty strings; one token gives that token and an empty last name; an `llc`/`inc` ending gives the whole stripped name; otherwise the first token is the first name and the last name comes from the suffix, initial and default rules in that order; the first name of a non-blank name is never empty |
| Splitter.SplitNameDependsOnTokens | app.py:103-145 | except for business names, the result depends only on the tokens, not on the spacing |
| Splitter.SplitNameFirstLast | app.py:142-145 | `First Last` splits into `First` and `Last` when `Last` is plain (here and below, "plain" means the last token is not `llc`/`inc` or `jr`/`sr`/`sir`, in any case and with trailing periods ignored, and is not a single letter) |
| Splitter.SplitNameDropsMiddleInitial | app.py:130-145 | `First M Last` splits into `First` and `Last` when `Last` is plain |
| Splitter.SuffixRule | app.py:123-127 | for any name of two or more tokens ending in `jr`, `sr` or `sir` (any case, trailing periods ignored), the first token is the first name and the token before the suffix is the last name |
| Splitter.SplitNameDropsSuffix | app.py:117-128 | `First Last Jr.` splits into `First` and `Last`, with or without periods on the suffix |
| Splitter.SplitNameTrailingInitial | app.py:136-140 | `First Last K` splits into `First` and `Last` |
| Splitter.SplitNameInitialBeforeLast | app.py:130-134 | with four tokens, an initial in third place and a plain last token, the first token is the first name and the second token is the last name |
| Splitter.SplitNameJointOwners | app.py:104-145 | `A & B Last` splits into `A` and `Last` when `B` is not a single letter and `Last` is plain |
| Splitter.SplitNameKeepsBusiness | app.py:123-125 | a name ending in `LLC` is kept whole as the first name with no last name |
| Reorder.Match | app.py:164-169 | a match yields well-formed groups that render to the text, allowing one trailing newline |
| Reorder.MatchRender | app.py:164-169 | every well-formed `Initial First Last` text matches and gives back its groups, with or without a trailing newline |
| Reorder.MatchCharacterization | app.py:164-169 | the pattern matches with groups `x` exactly when `x` is well formed and the text is its rendering, possibly followed by one newline |
| Reorder.ReorderName | app.py:147-185 | non-strings and non-matching strings come back unchanged; a matching name has three tokens, and the result holds the same tokens with the first two swapped and the same length, minus a dropped trailing newline |
| Reorder.ReorderNameOfRender | app.py:179-182 | `Initial First Last` becomes `First Initial Last` |
| Casing.ToProperCase | app.py:186-189 | non-strings pass through; a string keeps its length, and each character is upper-cased when it starts a word and lower-cased otherwise |
| Casing.Title | app.py:188 | `str.title()` keeps the length; each character is upper-cased exactly when it is first or follows a non-letter, and lower-cased otherwise |
| Casing.TitleKeepsNonLetters | app.py:188 | letters stay letters and every other character is unchanged |
| Casing.TitleIdempotent | app.py:188 | title-casing twice equals title-casing once |
| Casing.TitleIgnoresCase | app.py:188 | the input's letter case does not affect the result |
| Casing.ToProperCaseIdempotent | app.py:186-189 | `to_proper_case` applied twice equals applying it once |
| Casing.TitleExamples | app.py:188 | `jOHN smith` becomes `John Smith`; `o'neil` becomes `O'Neil` |
| Zip.RemoveChar | app.py:64 | removing a character never lengthens the text and leaves no copy of it |
| Zip.RemoveCharKeepsOthers | app.py:64 | every copy of the character goes and every other character stays as often as it occurred, so the text shrinks by exactly the number of copies |
| Zip.RemoveCharAppend | app.py:64 | character removal works piece by piece over concatenation |
| Zip.RemoveCharAbsent | app.py:64 | text without the character is unchanged |
| Zip.RemoveDotZero | app.py:64 | `replace('.0', '')` never lengthens the text and drops, adds and reorders nothing but `.` and `0` characters |
| Zip.RemoveDotZeroDropsPair | app.py:64 | a `.0` at the front is dropped and the scan resumes after its `0` |
| Zip.RemoveDotZeroKeepsLonePeriod | app.py:64 | a period not followed by `0` is kept and the scan resumes just after it |
| Zip.RemoveDotZeroWithoutPeriod | app.py:64 | text without a period is unchanged |
| Zip.RemoveDotZeroAppend | app.py:64 | the replacement works piece by piece when the left piece does not end in a period |
| Zip.RemoveDotZeroSinglePass | app.py:64 | one pass over `..00` leaves `.0`, so cleaning again changes the result |
| Zip.CleanFullZip | app.py:63-65 | the result has no comma and is the first `min(5, n)` characters of the text after commas and `.0` are removed |
| Zip.ZipOfFloatText | app.py:63-65 | digits followed by `.0` come back as the digits, cut to five |
| Zip.ZipOfZipPlusFour | app.py:63-65 | a ZIP+4 code `ddddd-eeee` comes back as its five-digit ZIP |
| Zip.ZipOfGroupedFloat | app.py:63-65 | a number printed with a thousands comma and `.0` comes back as its digits with the comma gone, cut to five |
| Zip.ZipWithDecimals | app.py:63-65 | `432.15` cleans to `432.1`: a decimal part not starting with `0` keeps its period |
| Zip.ZipExample | app.py:63-65 | `43,215.0` cleans to `43215` |
| Columns.Normalize | app.py:192 | a normalised name has only single spaces as separators and keeps every other character of the stripped, lower-cased name in order |
| Columns.Collapse | app.py:192 | `re.sub(r'[\s_]+', ' ', s)` never lengthens the text, leaves separators only as single spaces, drops, adds and reorders no other character, and starts with a separator exactly when `s` does |
| Columns.CollapseRun | app.py:192 | each maximal run of whitespace and underscores becomes exactly one space in its place, with the text on either side collapsed on its own |
| Columns.CollapseAppend | app.py:192 | text that is empty or ends in a non-separator collapses independently of what follows it |
| Columns.CollapseIdempotent | app.py:192 | collapsing twice equals collapsing once |
| Columns.ColumnMap | app.py:191-192 | the map's keys are exactly the keys of the headers, and each value is a header with that key |
| Columns.StandardizedColumnMap | app.py:191-192 | the keys are exactly the normalised headers, and each key leads back to a header that normalises to it |
| Columns.ColumnMapLastWins | app.py:191-192 | each key maps to the last header with that key |
| Columns.FirstPresent | app.py:89-95 | the search returns the first alias present in the sheet, or nothing when no alias is present |
| Columns.MapColumnsBy | app.py:86-96 | the result has exactly the configuration's fields, each mapped to `"none"` or to a value of the header map |
| Columns.MapColumns | app.py:86-96 | with the program's normalisation, the result has exactly the configuration's fields, each mapped to `"none"` or to a header taken from the header map |
| Columns.MapColumnsChoice | app.py:86-96 | a field maps to `"none"` when no alias is present, and otherwise to the header of its first present alias |
| Columns.MapColumnsPicksHeaders | app.py:86-96 | against a real sheet, each field maps to `"none"` or to a sheet header whose key equals the key of one of the field's aliases |
| Columns.MapColumnsOfSheet | app.py:86-96 | with the program's normalisation, the result has exactly the configured fields and each maps to `"none"` or to a sheet header that normalises like one of its aliases |

## Left out

- The Streamlit page, CSV reading and writing, and the per-row driver (`app.py:213-236`) are I/O.
- `filter_names` (`app.py:194-211`) is not modelled. Its whole body is commented out, and its `return` names two variables that are never assigned, so every call raises `NameError`.
- The structural name regex of `is_personal_name` (`app.py:37-53`) and its `print` are not modelled. The regex is the parameter `structuralMatch`, and the code never consults it for a string. For a non-string the regex is compiled but never applied, and the function returns `False` at `app.py:53`.
- `excluded_zips` (`app.py:54-61`) is an unused list.
- The commented-out first pattern of `reorder_name` (`app.py:156-162`, `174-178`) is dead code.
- Classifier.IsPersonalNameIgnoresCase: proved for Python's ASCII lower-casing only.
- Non-ASCII text: Unicode whitespace, Unicode case mapping, and the extra characters `re.IGNORECASE` lets `[A-Z]` match are not modelled.
- `pd.isna` and `isinstance` are modelled together as the `Missing` cell.
- Zip.CleanFullZip: the `str(zip_code)` conversion is the caller's job, so the model starts from the text. For example, a ZIP stored as a number has already lost its leading zeros at that point.
- Splitter: the examples are stated over arbitrary tokens, not over literal names.
- Columns: `ColumnMappingConfig` is reproduced but has no proved properties of its own.
- Columns.MapColumnsBy: the key function is a parameter. `MapColumns` and `StandardizedColumnMap` fix it to `Normalize`, so every property proved over `key` holds for the program's normalisation.
- Address normalisation and ZIP-to-city lookup have no code in the source.
