# CID lookup service — a Dafny model of its core

The service answers two questions over a fixed table of CID codes
(the Brazilian use of the ICD disease classification) and their names:

- **lookup by code** (`search_cid_by_code`). The query code is upper-cased
  and looked up in the table. A hit gives one row holding the upper-cased
  query and the stored name; a miss gives "not found".
- **search by name** (`search_cid_by_name`), in one of two modes:
  - **flexible** (the default): a name passes when the token-set similarity
    score of `thefuzz` between the name and the query is at least 80;
  - **regular**: the query is split on whitespace and each word is escaped.
    The words are joined into the pattern `\b w1\b.*\bw2 … wn\b`, and a name
    passes when `re.search` finds that pattern in it, ignoring case.

  Any other mode is refused with "invalid mode". The result lists the
  passing items in table order, each with its code upper-cased. An empty
  result is "not found".

The table is built once by a dict comprehension over the loaded records.
It is modelled as the list of its items in iteration order, with distinct
codes: a Python dict keeps its keys in first-insertion order, and a
repeated code overwrites the value in place.

## Modules

- `Wrappers`: `Option`.
- `Text`: the parts of Python's `str` and `re` that the service relies on:
  - `str.isspace` and the `\w` class, as range tables;
  - the lower-case mapping of `re.IGNORECASE`;
  - `str.upper`, including `ß` → `SS`;
  - `str.split()` with no arguments.
- `Regex`: the `re` fragment the regular mode uses:
  - word boundaries, escaped literals and `.*` (which stops at a newline);
  - a backtracking matcher `MatchAt`;
  - `Search`, which tries every start position as `re.search` does.
- `RegularMode`: builds the pattern from the query. It also proves that
  the pattern means what the words say: a name matches iff the query words
  occur in it in order, without overlapping, each as a whole word ignoring
  case, with no newline between consecutive words.
- `Similarity`: `is_similar`, over an abstract scoring function whose
  results lie in 0..100.
- `Catalog`: the dict built from the records, with `get` and item
  assignment.
- `Service`: the lookup by code, the order-preserving filter, the mode
  dispatch and the name search.
- `Scenarios`: worked examples on concrete queries, names and a two-item
  table.

### Two behaviours of the code that a reader might not expect

- **Stored codes are not upper-cased.** The table keeps codes exactly as
  the records spell them. Only the query is upper-cased. So a record whose
  code contains a lower-case letter can never be found by code
  (`Service.LowerCaseCodeUnreachable`). Lookups succeed only for records
  whose codes are already upper case.
- **Duplicate rows are possible.** The name search upper-cases each stored
  code for display. Two stored codes that differ only in case therefore
  give the same row twice (`Service.CaseTwinsRepeat`). So "no duplicate
  rows" is proved only for tables whose codes stay distinct once
  upper-cased (`Service.SelectNoDuplicates`).

## Model

| member | source | states |
|---|---|---|
| `Catalog.Get` | app.py:56 | `get` finds a name iff the code is a key, and the name found is the one stored with that code |
| `Catalog.GetAt` | app.py:56 | in a table with distinct codes, `get` of an item's code returns that item's name |
| `Catalog.Put` | app.py:24 | assigning under a code keeps the codes distinct and adds the code to the key set; the table grows by one item only when the code is new |
| `Catalog.PutOrder` | app.py:24 | assigning under an existing code keeps every code in its place; a new code goes last |
| `Catalog.PutGet` | app.py:24 | after assigning, the assigned code holds the new name and every other code holds what it held before |
| `Catalog.Build` | app.py:24 | the dict built from the records has distinct codes, has exactly the records' codes as keys, and has no more items than records |
| `Catalog.LastRecordWins` | app.py:24 | each code maps to the name of the last record carrying it |
| `Catalog.AbsentCode` | app.py:24 | a code that no record carries is not in the dict |
| `Catalog.BuildDistinct` | app.py:24 | records whose codes are already distinct become the dict's items unchanged and in the same order |
| `Catalog.FirstIndex` | app.py:24 | the position at which a code first occurs among the records |
| `Catalog.BuildExtends` | app.py:24 | one more record leaves the existing keys in place and appends a new code at the end |
| `Catalog.BuildKeepsFirstOccurrenceOrder` | app.py:24 | the dict iterates its codes in the order of their first occurrence among the records |
| `Similarity.IsSimilar` | app.py:28-35 | `is_similar`: the pair is similar iff its score is at least the threshold; `DefaultThreshold` is 80 |
| `Similarity.ThresholdMonotone` | app.py:28-35 | lowering the threshold never turns a similar pair into a dissimilar one |
| `Similarity.ThresholdExtremes` | app.py:34-35 | a threshold of 0 or less accepts every pair; a threshold above 100 accepts none, since scores lie in 0..100 |
| `Text.IsSpace` | app.py:83 | `str.isspace` on one character: tab to carriage return, the file, group, record and unit separators (U+001C to U+001F), space, U+0085, U+00A0, U+1680, U+2000 to U+200A, U+2028, U+2029, U+202F, U+205F and U+3000 |
| `Text.IsWordChar` | app.py:87 | membership of `\w`: Latin-1 letters, digits and `_`, plus ª ² ³ µ ¹ º ¼ ½ ¾ |
| `Text.Fold` | app.py:87 | the character `re.IGNORECASE` compares: A-Z and the Latin-1 capitals À to Þ (except ×) map to their lower-case forms, every other character to itself |
| `Text.SpaceTable` | app.py:83 | the characters `str.isspace` accepts, spelled out |
| `Text.WordCharTable` | app.py:87 | the characters of `\w` in Latin-1 (letters, digits, `_`, and the numeric and letter signs ª ² ³ µ ¹ º ¼ ½ ¾), spelled out |
| `Text.FoldKeepsWordChar` | app.py:87 | ignoring case never changes whether a character is a word character, so word boundaries are the same under `re.IGNORECASE` |
| `Text.UpperChar` | app.py:56 | `str.upper` of one character: a-z and à to þ (except ÷) lose 32, ß becomes `SS`, ÿ becomes U+0178, µ becomes U+039C, anything else stays; the result has one or two characters |
| `Text.Upper` | app.py:56 | `str.upper` of a string: the upper-cased characters, concatenated in order |
| `Text.UpperConcat` | app.py:56 | `str.upper` of a concatenation is the concatenation of the upper-cased parts |
| `Text.UpperIdempotent` | app.py:56 | upper-casing twice gives the same as upper-casing once |
| `Text.DropSpace` | app.py:83 | stripping leading whitespace gives a suffix of the input that is empty or starts with a non-space |
| `Text.DropSpaceRemovesSpace` | app.py:83 | everything stripped is whitespace |
| `Text.TakeWord` | app.py:83 | the first word is a prefix of the input without whitespace, and it is non-empty when the input starts with a non-space |
| `Text.TakeWordMaximal` | app.py:83 | the first word is the longest such prefix: it ends at the end of the input or just before a whitespace character |
| `Text.Split` | app.py:83 | `str.split()`: strip leading whitespace, split off the longest whitespace-free prefix as a word, repeat on the rest, stop when nothing but whitespace is left |
| `Text.SplitGivesTokens` | app.py:83 | every word that `str.split()` returns is non-empty and contains no whitespace |
| `Text.SplitKeepsNonSpace` | app.py:83 | put back together, the words are exactly the non-whitespace characters of the query, in order |
| `Text.SplitBlank` | app.py:83 | `str.split()` returns no words iff the query is all whitespace, the empty query included |
| `Text.SplitToken` | app.py:83 | a word followed by whitespace or by the end of the string is split off whole |
| `Text.SplitLeadingSpace` | app.py:83 | whitespace before the first word, however long, changes nothing |
| `Text.SplitWordThenSpace` | app.py:83 | a word followed by a run of whitespace of any length is split off whole, and the run is dropped |
| `Text.SplitJoinWords` | app.py:83 | splitting undoes joining whitespace-free words with single spaces |
| `Regex.AtBoundary` | app.py:83 | `\b` at position i: exactly one of the characters at i-1 and at i is a word character, a position outside the string counting as non-word; so at either end of a string `\b` needs a word character there |
| `Regex.MatchAt` | app.py:87 | the backtracking matcher: `\b` consumes nothing and needs a boundary, a literal consumes one character equal to it ignoring case, `.*` tries the rest first here and then after one more non-newline character |
| `Regex.Search` | app.py:87 | `re.search`: the pattern matches at the first position that works, trying every position from 0 to the length of the name |
| `Regex.Escape` | app.py:83 | `re.escape`: each character of the word becomes one literal |
| `Regex.EscapeLiterals` | app.py:83 | the escaped word has one atom per character, and the k-th atom is the literal of the k-th character |
| `Regex.SearchFinds` | app.py:87 | `re.search` succeeds iff the pattern matches at some position of the name |
| `Regex.EscapeMatch` | app.py:83 | an escaped word matches exactly where the name spells that word ignoring case: a metacharacter in the query matches only itself |
| `Regex.AnyRunMatch` | app.py:83 | `.*` followed by the rest matches iff the rest matches after some run of characters without a newline |
| `RegularMode.PatternOf` | app.py:83 | the pattern `\b`, then the escaped words joined by `\b.*\b`, then `\b` |
| `RegularMode.QueryPattern` | app.py:83 | the pattern of the query's whitespace-split words |
| `RegularMode.RegularMatch` | app.py:87 | a name passes the regular mode iff `re.search` finds the query's pattern in it |
| `RegularMode.PatternOfCons` | app.py:83 | the joined pattern is `\b`, then the first escaped word, then `\b` and, when more words follow, `.*` and the pattern of the remaining words |
| `RegularMode.FirstWordMatch` | app.py:83 | the pattern matches at a position iff a word boundary is there, the first word occurs there, and the rest of the pattern matches where it ends |
| `RegularMode.MatchGivesPlacement` | app.py:83-87 | a match at a position places every query word in order as a whole word, the first at that position |
| `RegularMode.PlacementGivesMatch` | app.py:83-87 | any such placement of the words is a match of the pattern at the first word's position |
| `RegularMode.BoundaryIffWordChar` | app.py:87 | a string has a word boundary iff it contains a word character |
| `RegularMode.PatternMeaning` | app.py:83-87 | searching for the built pattern succeeds iff the words occur in the name in order, without overlap, as whole words ignoring case, with no newline between them; with no words the pattern `\b\b` needs a single boundary |
| `RegularMode.RegularMatchMeaning` | app.py:83-87 | a name matches a query in the regular mode iff the query's whitespace-split words are placed in the name that way |
| `RegularMode.BlankQueryMatch` | app.py:83-87 | a whitespace-only query matches exactly the names that contain a word character, so it never matches an empty name |
| `Service.Shown` | app.py:78 | the row shown for an item: its code upper-cased, its name unchanged |
| `Service.LookupCode` | app.py:56-61 | the lookup finds something iff the upper-cased query is a stored code; a hit is exactly one row, with the upper-cased query as code and the name stored under it; otherwise not found |
| `Service.LookupIgnoresCase` | app.py:56 | looking up a code and looking up its upper-cased form give the same outcome |
| `Service.LookupInBuiltTable` | app.py:56-60 | in the table built from the records, the lookup returns the name of the last record whose code equals the upper-cased query |
| `Service.LookupMissing` | app.py:59-61 | when no record carries the upper-cased query as its code, the lookup reports not found |
| `Service.LowerCaseCodeUnreachable` | app.py:24 | a record stored with code `a01` is not found, even by the query `a01` |
| `Service.Select` | app.py:77-81 | the selection has no more rows than the table, and it is empty iff no item passes the test |
| `Service.Hits` | app.py:77-81 | the positions of the passing items, strictly increasing, and exactly those positions |
| `Service.SelectIsOrderedFilter` | app.py:77-81 | the k-th row of the selection is the k-th passing item, with its code upper-cased |
| `Service.SelectMembers` | app.py:84-88 | a row appears in the selection iff it shows some passing item |
| `Service.SelectNoDuplicates` | app.py:77-81 | when stored codes stay distinct once upper-cased, no row repeats |
| `Service.CaseTwinsRepeat` | app.py:77-81 | the stored codes `a01` and `A01` give the row `A01` twice |
| `Service.ParseMode` | app.py:72-90 | an absent mode or "flexible" selects the flexible mode, "regular" selects the regular mode, and every other string is refused |
| `Service.KeepFor` | app.py:75-88 | the test a name must pass: `is_similar` against the query with threshold 80 in the flexible mode, `re.search` of the query's pattern in the regular mode |
| `Service.KeepForMeaning` | app.py:80-87 | in the flexible mode a name passes iff its score against the query is at least 80; in the regular mode, iff the query words are placed in it in order as whole words |
| `Service.SearchName` | app.py:72-91 | the search is refused iff the mode is unknown; a found result has at least one row; with a known mode it is not found iff no item of the table passes |
| `Service.UnknownModeRefused` | app.py:89-90 | any mode other than "flexible" or "regular" gives the invalid-mode outcome, whatever the query and the table |
| `Service.DefaultModeIsFlexible` | app.py:72 | leaving the mode out gives the same outcome as asking for "flexible" |
| `Service.SearchRows` | app.py:75-91 | a found result lists every passing item, each with its code upper-cased, in table order, and nothing else |
| `Scenarios.TwoWordMatch` | app.py:83-87 | a two-word query matches a name iff the first word sits before the second there, both as whole words, with no newline between them |
| `Scenarios.FebreAmarelaMatches` | app.py:83-87 | "febre amarela" matches "Febre Amarela Silvestre" |
| `Scenarios.WrongOrderFails` | app.py:83-87 | "febre amarela" does not match "Amarela Febre" |
| `Scenarios.NoBoundaryFails` | app.py:83-87 | "febre amarela" does not match "Febrexamarela": it has no word boundary after "Febre" |
| `Scenarios.SampleLookup` | app.py:56-60 | the query `a01` finds the stored code `A01` with its name |
| `Scenarios.EnteriteSalmonellaMatches` | app.py:83-87 | "enterite salmonella" matches "Enterite por Salmonella", across the word in between |
| `Scenarios.SalmonellaEnteriteFails` | app.py:83-87 | "salmonella enterite" does not match "Enterite por Salmonella" |
| `Scenarios.SampleFlexible` | app.py:77-81 | with a score that rates only "Febre Tifoide" at 80 or more against "febre", the default search returns that item alone |

## Left out

- HTTP layer: Flask routing, `jsonify`, status codes and the response bodies (app.py:38-47, 64, 91) are not modelled. Outcomes are the abstract `Found(rows)`, `NotFound` and `InvalidMode`.
- `fetch_all_cids` (app.py:38-44) is not modelled: it only returns the list as loaded.
- Configuration and start-up: `.env` loading, environment variables and `app.run` (app.py:12-14, 94-96) are not modelled. The global table is an explicit immutable parameter instead.
- Data loading: reading the file and `json.load` (app.py:17-25) are I/O. The records are given as a sequence of (code, name) pairs, and names are always strings. The failure when the path does not end in `.json` (an unbound `db_list`) is not modelled.
- Similarity.IsSimilar: the score `fuzz.token_set_ratio` comes from a foreign library whose source is not part of this model. It is a parameter known only to lie in 0..100, so facts such as "identical strings score 100" are not available.
- Text.Fold: exact when both characters are in Latin-1 (U+0000 to U+00FF). Above U+00FF it is the identity, whereas `re.IGNORECASE` folds all of Unicode (Greek, Cyrillic, the Kelvin sign and so on).
- Text.IsWordChar: exact on Latin-1 only. Above U+00FF no character counts as a word character, whereas `re` uses Unicode's alphanumerics.
- Text.UpperChar: exact on Latin-1 only. Above U+00FF characters are left unchanged, whereas `str.upper` maps all of Unicode.
- The textual form `re.escape` produces is not modelled. The pattern is modelled as the atoms `re` parses it into, where an escaped character is a literal; that is what `re.escape` guarantees.
- Concurrency, and the request objects of the web framework, are not modelled.
