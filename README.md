# Participant ingest: header resolution, normalisation and filtering

This project models the core of `scripts/ingest-participants.mjs`, the script that turns a
trick-or-treat trail registration export into `data/participants.csv`. The modelled core is
the `data.map(...).filter(...)` pipeline. For each parsed row it:

1. finds, among the row's own keys, the first one matching each of three case-insensitive
   patterns. These are `/Trick-?or-?Treat Name/i` for the theme, `/^Address\s*$/i` for the
   address and `/Household Name/i` for the household.
2. falls back to the keys `Theme`, `Address` and `Name` when no key matches.
3. reads each chosen column with a `|| ""` default and trims it. When the address column's
   value is missing or empty, it tries the literal key `Address ` (with a trailing space)
   next.
4. keeps the records whose trimmed theme is non-empty, in row order.

The modules follow the pieces of that pipeline:

- `Text` (`text.dfy`): the ECMAScript whitespace set, `String.prototype.trim`, and ASCII
  case folding.
- `Regex` (`regex.dfy`): the regular-expression fragment the three patterns use (literal
  runs, `c?`, `\s*`), with unanchored `test` and anchored `^…$` matching.
- `Rows` (`rows.dfy`): a parsed row as the ordered list of its cells, property lookup
  `r[key]`, and JavaScript's `||` on strings.
- `Headers` (`headers.dfy`): the three patterns, `Object.keys(r).find(...) || fallback`, and
  what each pattern accepts.
- `Ingest` (`ingest.dfy`): the per-row record, the filter, the whole pipeline, reading an
  output file back, and a worked two-row example.

Everything is pure, so the model is made of datatypes, functions and lemmas. The concrete
examples are stated over symbolic cell values: they hold for every value that meets their
stated conditions.

## Behaviour worth noting

- A header with spaces for the hyphens (`Trick or Treat Name`) is not a theme header: each
  hyphen of the pattern is optional, but a space is not accepted in its place
  (`Headers.SpacedThemeHeaderRejected`).
- Keys are resolved again for every row, so a row can be read through a theme key that an
  earlier row does not have (`Ingest.ResolutionIsPerRow`). Resolving once gives the same
  output when all rows share their keys (`Ingest.ResolveOnceForUniformHeader`).
- A column named exactly `Trick-or-Treat Name` is not chosen when an earlier key also matches
  the pattern: the first matching key wins (`Headers.ResolvesToFirstMatch`).
- A header `Address ` (with a trailing space) already matches `/^Address\s*$/i`, so it is
  chosen as the address key directly and the literal `r["Address "]` lookup is only reached
  when the chosen column is empty (`Ingest.SpacedAddressHeader`).

## Model

| member | source | states |
|---|---|---|
| Text.TrimStart | scripts/ingest-participants.mjs:21-23 | the result is no longer than the input and does not start with whitespace |
| Text.TrimEnd | scripts/ingest-participants.mjs:21-23 | the result is no longer than the input and does not end with whitespace |
| Text.Trim | scripts/ingest-participants.mjs:21-23 | `.trim()` yields a string with no whitespace at either end, no longer than the input |
| Text.TrimStartSplits | scripts/ingest-participants.mjs:21-23 | what the leading trim drops is a whitespace prefix: `s == a + TrimStart(s)` with `a` all whitespace |
| Text.TrimEndSplits | scripts/ingest-participants.mjs:21-23 | what the trailing trim drops is a whitespace suffix: `s == TrimEnd(s) + b` with `b` all whitespace |
| Text.TrimStartAppend | scripts/ingest-participants.mjs:21-23 | whitespace in front of a string that does not start with whitespace is exactly what the leading trim removes |
| Text.TrimEndAppend | scripts/ingest-participants.mjs:21-23 | whitespace after a string that does not end with whitespace is exactly what the trailing trim removes |
| Text.TrimRemovesSurroundingSpace | scripts/ingest-participants.mjs:21-23 | for any whitespace `a` and `b` and any trimmed `m`, `trim(a + m + b) == m` |
| Text.TrimSplits | scripts/ingest-participants.mjs:21-23 | every string is its trim with whitespace before and after it |
| Text.TrimIdempotent | scripts/ingest-participants.mjs:21-23 | trimming twice equals trimming once |
| Text.TrimOfTrimmed | scripts/ingest-participants.mjs:21-23 | a string with no whitespace at either end is its own trim |
| Text.TrimEmptyIff | scripts/ingest-participants.mjs:25 | the trim is empty exactly when the string is all whitespace, both directions |
| Text.ContainsIgnoreCaseIff | scripts/ingest-participants.mjs:16 | the left-to-right substring scan succeeds exactly when the word occurs, up to case, at some position |
| Regex.MatchHere | scripts/ingest-participants.mjs:16-18 | the backtracking matcher for one pattern at the start of the input; its contract is stated, one pattern shape at a time, by `MatchWord`, `WordsMerge`, `OptionalAfterWord` and `MatchSpacesToEnd` |
| Regex.Test | scripts/ingest-participants.mjs:16-18 | `RegExp.prototype.test` without anchors: a match starting at some position; its contract for literal patterns is `TestWord` |
| Regex.TestAnchored | scripts/ingest-participants.mjs:17 | `test` of a `^...$` pattern: a match from the start that consumes the whole input; its contract for the address pattern is `Headers.AddressHeaderIff` |
| Regex.MatchWord | scripts/ingest-participants.mjs:16-18 | a literal run matches exactly when the input starts with it up to case and the rest of the pattern matches after it |
| Regex.WordsMerge | scripts/ingest-participants.mjs:16 | two adjacent literal runs match exactly as their concatenation |
| Regex.OptionalAfterWord | scripts/ingest-participants.mjs:16 | `w c?` matches exactly when `w c` or `w` matches, with backtracking over both choices |
| Regex.MatchSpacesToEnd | scripts/ingest-participants.mjs:17 | a final `\s*$` accepts exactly an all-whitespace remainder |
| Regex.TestWord | scripts/ingest-participants.mjs:18 | an unanchored `test` of a literal pattern is a case-insensitive substring search |
| Rows.Get | scripts/ingest-participants.mjs:21-23 | `r[key]` on a parsed row; its contract is `GetSpec` and, for rows with distinct keys, `GetFindsCell` |
| Rows.OrElse | scripts/ingest-participants.mjs:21-23 | JavaScript's logical or of `x`, a string or `undefined`, and a string `y`: the result is `y` or the value of `x`, and it is empty exactly when `x` is missing or empty and `y` is empty |
| Rows.OrElseGrouping | scripts/ingest-participants.mjs:22 | the logical or groups to the left, and `(a or b) or c` equals `a or (b or c)`, the grouping the model uses for the address default |
| Rows.GetSpec | scripts/ingest-participants.mjs:21-23 | `r[key]` is `undefined` exactly when `key` is not a key of the row; otherwise it is the value of a cell with that key |
| Rows.GetFindsCell | scripts/ingest-participants.mjs:21-23 | with distinct keys, `r[key]` is `v` exactly when the row has the cell `key: v` |
| Headers.IsThemeHeader | scripts/ingest-participants.mjs:16 | `/Trick-?or-?Treat Name/i.test(k)`; its contract is `ThemeHeaderIff` |
| Headers.IsAddressHeader | scripts/ingest-participants.mjs:17 | `/^Address\s*$/i.test(k)`; its contract is `AddressHeaderIff` |
| Headers.IsHouseholdHeader | scripts/ingest-participants.mjs:18 | `/Household Name/i.test(k)`; its contract is `HouseholdHeaderIff` |
| Headers.FallbackKey | scripts/ingest-participants.mjs:16-18 | the literal after the logical or: `Theme`, `Address` and `Name`; its contract is `ResolveKeySpec`, which says the fallback is used exactly when no key matches |
| Headers.OptionalTail | scripts/ingest-participants.mjs:16 | `a x? c` matches at the start exactly when the input starts with `a x c` or `a c` |
| Headers.TwoOptionals | scripts/ingest-participants.mjs:16 | `a x? b x? c` matches at the start exactly when the input starts with one of the four runs |
| Headers.ThemeMatchHereIff | scripts/ingest-participants.mjs:16 | the theme pattern matches at the start exactly when one of `Trick-or-Treat Name`, `Trick-orTreat Name`, `Trickor-Treat Name`, `TrickorTreat Name` is a prefix up to case |
| Headers.ThemeHeaderIff | scripts/ingest-participants.mjs:16 | a key is a theme header exactly when it contains one of the four spellings, up to case, anywhere |
| Headers.AddressHeaderIff | scripts/ingest-participants.mjs:17 | a key is an address header exactly when it is `Address` up to case followed only by whitespace |
| Headers.HouseholdHeaderIff | scripts/ingest-participants.mjs:18 | a key is a household header exactly when it contains `Household Name` up to case |
| Headers.MatchedKeyNonEmpty | scripts/ingest-participants.mjs:16-18 | no pattern matches the empty key, so the fallback only ever replaces a failed search |
| Headers.FindIndex | scripts/ingest-participants.mjs:16-18 | `find` returns the first matching position: it matches, no earlier key matches, and the length of the key list means none matches |
| Headers.ResolveKey | scripts/ingest-participants.mjs:16-18 | `Object.keys(r).find(...)`, or the fallback when nothing is found, for one field; its contract is `ResolveKeySpec` |
| Headers.ResolveKeys | scripts/ingest-participants.mjs:16-18 | the three keys of one row; its contract is `ResolveThreeKeys`, `ResolveKeyIgnoresNonMatching` and `Ingest.ResolveOnceForUniformHeader` |
| Headers.ResolveKeySpec | scripts/ingest-participants.mjs:16-18 | if some key matches, the chosen key is a matching key with no matching key before it; if none matches, the chosen key is the fallback |
| Headers.ResolvesToFirstMatch | scripts/ingest-participants.mjs:16-18 | a matching key with no matching key before it is the key chosen |
| Headers.FindIndexViaMatchingKeys | scripts/ingest-participants.mjs:16-18 | `find` succeeds exactly when some key matches, and then returns the first of the matching keys |
| Headers.ResolveKeyIgnoresNonMatching | scripts/ingest-participants.mjs:16-18 | key lists with the same matching keys in the same order resolve to the same key, whatever non-matching keys surround them |
| Headers.NumericKeyNeverMatches | scripts/ingest-participants.mjs:16-18 | a key made only of digits matches no pattern |
| Headers.WithoutArrayIndices | scripts/ingest-participants.mjs:16-18 | the keys that `Object.keys` does not move to the front, in order: none is an array index and there are no more of them than keys |
| Headers.MatchingKeysAppend | scripts/ingest-participants.mjs:16-18 | the matching keys of a concatenation are the matching keys of its parts, in order |
| Headers.ArrayIndicesNeverMatch | scripts/ingest-participants.mjs:16-18 | no array-index key matches any pattern |
| Headers.MatchingKeysWithoutArrayIndices | scripts/ingest-participants.mjs:16-18 | dropping the array-index keys leaves the matching keys unchanged |
| Headers.ArrayIndicesFirstKeepResolution | scripts/ingest-participants.mjs:16-18 | putting any array-index keys first, in any order, before the other keys in header order (the order `Object.keys` uses) leaves the matching keys and the chosen key as they are in header order |
| Headers.LetterWordNotInDigits | scripts/ingest-participants.mjs:16-18 | a word whose first character is a letter occurs at no position of a digit-only key |
| Headers.ResolveThreeKeys | scripts/ingest-participants.mjs:16-18 | a header of three keys, each matching only its own field's pattern, resolves to those three keys |
| Headers.ShortKeyNotThemeHeader | scripts/ingest-participants.mjs:16 | a key shorter than the shortest spelling is not a theme header |
| Headers.ShortKeyNotHouseholdHeader | scripts/ingest-participants.mjs:18 | a key shorter than `Household Name` is not a household header |
| Headers.AddressHeaderStartsWithA | scripts/ingest-participants.mjs:17 | a key whose first letter is not `a` or `A` is not an address header |
| Headers.ThemeColumnNotHouseholdHeader | scripts/ingest-participants.mjs:18 | the `Trick-or-Treat Name` column is not taken for the household |
| Headers.ThemeColumnIsThemeHeader | scripts/ingest-participants.mjs:16 | `Trick-or-Treat Name` is a theme header |
| Headers.ThemeHeaderAnywhere | scripts/ingest-participants.mjs:16 | any key containing a spelling in any case, with any text around it, is a theme header |
| Headers.LowerCaseThemeHeader | scripts/ingest-participants.mjs:16 | `trick-or-treat name` is a theme header |
| Headers.SpacedThemeHeaderRejected | scripts/ingest-participants.mjs:16 | `Trick or Treat Name`, with spaces for hyphens, is not a theme header |
| Headers.SpacedNotSpelling | scripts/ingest-participants.mjs:16 | a key at most two characters longer than a word, which differs from the word at position 5 and whose second and third characters differ from the word's first, does not contain the word |
| Headers.AddressHeaderSpellings | scripts/ingest-participants.mjs:17 | `Address`, `Address ` and `ADDRESS` followed by a tab are address headers |
| Headers.AddressHeaderNearMisses | scripts/ingest-participants.mjs:17 | ` Address`, `Mailing Address` and `Address 2` are not address headers |
| Headers.HouseholdHeaderAnywhere | scripts/ingest-participants.mjs:18 | any key containing `Household Name` in any case is a household header |
| Headers.HouseholdHeaderVariants | scripts/ingest-participants.mjs:18 | `Household Name` and `household name (last)` are household headers |
| Headers.HouseholdHeaderNearMisses | scripts/ingest-participants.mjs:18 | neither `Name` nor `Household` is a household header |
| Ingest.NormalizeWith | scripts/ingest-participants.mjs:20-24 | the record built from resolved keys has all three fields trimmed |
| Ingest.Normalize | scripts/ingest-participants.mjs:14-24 | the `map` callback is total and its record has all three fields trimmed |
| Ingest.Admissible | scripts/ingest-participants.mjs:25 | the filter callback `x => x["Trick-or-Treat Name"]` on a record; its contract is `AdmissibleIff` and `KeepAdmissibleMembers` |
| Ingest.KeepAdmissible | scripts/ingest-participants.mjs:25 | the filter never lengthens the list |
| Ingest.KeepAdmissibleMembers | scripts/ingest-participants.mjs:25 | a record is in the filter's output exactly when it is in the input and has a non-empty theme |
| Ingest.Ingest | scripts/ingest-participants.mjs:14-25 | the output has at most as many records as there are rows, and no rows give no records |
| Ingest.IngestOutputClean | scripts/ingest-participants.mjs:14-25 | every output record has a non-empty theme and no surrounding whitespace in any field |
| Ingest.LookupTrimmed | scripts/ingest-participants.mjs:21-23 | the lookup with an empty default, trimmed, is the trimmed value of the cell with that key, and `""` when the row lacks the key |
| Ingest.ThemeAndHouseholdValues | scripts/ingest-participants.mjs:21-23 | the theme and household are the trimmed values under the resolved keys, and empty when the resolved key is not in the row |
| Ingest.AddressValue | scripts/ingest-participants.mjs:22 | a non-empty value under the address key wins, even a blank one; otherwise the `Address ` value is used; failing both the address is empty |
| Ingest.TwoAddressKeys | scripts/ingest-participants.mjs:16-18 | for keys `Address` and `Address `, the first is the address key and theme and household fall back |
| Ingest.TwoAddressValues | scripts/ingest-participants.mjs:22 | with both address columns, the address is the first value trimmed, or the second when the first is empty |
| Ingest.TwoAddressColumns | scripts/ingest-participants.mjs:16-24 | a row with `Address` and `Address ` takes its address from `Address ` only when `Address` is empty |
| Ingest.BlankAddressHidesSecondColumn | scripts/ingest-participants.mjs:22 | a whitespace-only, non-empty `Address` value hides `Address `: the address is empty |
| Ingest.EmptyAddressFallsThrough | scripts/ingest-participants.mjs:22 | an empty `Address` value falls through to the trimmed `Address ` value |
| Ingest.AdmissibleIff | scripts/ingest-participants.mjs:25 | a row is kept exactly when the row has a value that is not all whitespace under its resolved theme key |
| Ingest.SingleCellValues | scripts/ingest-participants.mjs:20-24 | a one-cell row read with its own key for the theme gives the trimmed value and two empty fields |
| Ingest.SingleThemeCell | scripts/ingest-participants.mjs:14-24 | a one-cell row whose key resolves only for the theme gives the trimmed value and two empty fields |
| Ingest.ThemeColumnAlone | scripts/ingest-participants.mjs:16-18 | a header holding only `Trick-or-Treat Name` resolves the theme to it and the other two fields to their fallbacks |
| Ingest.ThemeOnlyRow | scripts/ingest-participants.mjs:14-24 | a row holding only the theme column gives its trimmed theme and empty address and household |
| Ingest.ThemeOnlyRowKept | scripts/ingest-participants.mjs:25 | such a row is kept exactly when its theme is not all whitespace |
| Ingest.KeepAdmissibleAppend | scripts/ingest-participants.mjs:25 | filtering a concatenation is concatenating the filtered parts |
| Ingest.KeepAdmissibleOne | scripts/ingest-participants.mjs:25 | the filter keeps one record exactly when it is admissible |
| Ingest.KeepAdmissibleAll | scripts/ingest-participants.mjs:25 | a list whose records all pass comes through unchanged |
| Ingest.KeepAdmissibleAtPositions | scripts/ingest-participants.mjs:25 | the filter's output is, one by one, the input records at the admissible positions |
| Ingest.AdmissiblePositionsIncrease | scripts/ingest-participants.mjs:25 | those positions strictly increase, so input order is kept |
| Ingest.AdmissiblePositionsComplete | scripts/ingest-participants.mjs:25 | every position of an admissible record is among them, so nothing admissible is dropped |
| Ingest.NormalizeAll | scripts/ingest-participants.mjs:14 | `data.map(...)`; its contract is `InNormalizeAll` and `NormalizeAllAppend` |
| Ingest.NormalizeAllAppend | scripts/ingest-participants.mjs:14 | `map` over a concatenation is the concatenation of the maps |
| Ingest.IngestAppend | scripts/ingest-participants.mjs:14-25 | rows are processed independently: the output for `a + b` is the output for `a` followed by the output for `b` |
| Ingest.IngestOne | scripts/ingest-participants.mjs:14-25 | a single row gives its record when that record has a theme, and nothing otherwise |
| Ingest.IngestTwo | scripts/ingest-participants.mjs:14-25 | two rows give the output of the first followed by the output of the second |
| Ingest.IngestKept | scripts/ingest-participants.mjs:14-25 | a row whose record passes yields exactly that record |
| Ingest.IngestDropped | scripts/ingest-participants.mjs:14-25 | a row whose record fails yields nothing |
| Ingest.IngestBothKept | scripts/ingest-participants.mjs:14-25 | two rows whose records both pass yield both records, in order |
| Ingest.IngestSelectsInOrder | scripts/ingest-participants.mjs:14-25 | the output is the records of the admissible rows, at strictly increasing row positions, with every admissible row present |
| Ingest.InNormalizeAll | scripts/ingest-participants.mjs:14-24 | a record is among the mapped rows exactly when some row normalises to it |
| Ingest.IngestMembers | scripts/ingest-participants.mjs:14-25 | a record is in the output exactly when some row normalises to it and its theme is non-empty |
| Ingest.ResolveOnceForUniformHeader | scripts/ingest-participants.mjs:14-18 | when all rows have the same keys, resolving once and resolving per row give the same output |
| Ingest.ThemeKeyAlone | scripts/ingest-participants.mjs:16-18 | a header holding only `Theme` matches no pattern, and all three fields take their fallback keys |
| Ingest.FallbackThemeRow | scripts/ingest-participants.mjs:16-24 | a row holding only a `Theme` cell is read through the theme fallback |
| Ingest.ResolutionIsPerRow | scripts/ingest-participants.mjs:14-25 | a row with `Trick-or-Treat Name` followed by a row with `Theme` keeps both themes, so each row resolves its own keys |
| Ingest.OutputHeaderResolvesToItself | scripts/ingest-participants.mjs:16-18 | the output header `Trick-or-Treat Name,Address,Household Name` resolves each field to its own column |
| Ingest.ThreeCellValues | scripts/ingest-participants.mjs:20-24 | a three-cell row read through its own three distinct keys gives the three values trimmed |
| Ingest.ThreeCells | scripts/ingest-participants.mjs:14-24 | a three-cell row whose keys resolve to themselves gives the three values trimmed |
| Ingest.NormalizeOutputRow | scripts/ingest-participants.mjs:14-24 | a clean record read back from its output row is the same record |
| Ingest.IngestOutputIsFixedPoint | scripts/ingest-participants.mjs:14-25 | ingesting rows written from clean admissible records returns exactly those records |
| Ingest.ReingestIsIdempotent | scripts/ingest-participants.mjs:14-25 | ingesting the written output of an ingestion reproduces that output |
| Ingest.SpacedAddressHeader | scripts/ingest-participants.mjs:16-18 | in the header `Trick-or-Treat Name`, `Address `, `Household Name`, the key `Address ` is itself the address key |
| Ingest.RowWithSpacedAddress | scripts/ingest-participants.mjs:14-24 | a row with its address under `Address ` gives a record holding that address |
| Ingest.RowWithBlankTheme | scripts/ingest-participants.mjs:14-25 | a row whose theme is all whitespace is dropped |
| Ingest.TwoRowExample | scripts/ingest-participants.mjs:14-25 | of a row with an `Address ` column and a row with a blank theme, only the first is output, with its address |

## Left out

- Reading the input file and writing the output file (lines 8 and 30) are I/O. The paths on lines 4-5 are configuration. The model starts from parsed rows and ends with the list of records.
- CSV parsing with `Papa.parse` (line 9) is left out, including `skipEmptyLines` and the `__parsed_extra` key that rows with extra fields get. A row is modelled as its cells in `Object.keys` order.
- CSV writing with `Papa.unparse` (line 29) is left out, including quoting and escaping. `Ingest.OutputRow` models only the row that reading such a file back yields, with the three fixed columns.
- The console output on lines 7, 11, 27 and 31-35 is left out. This includes the row counts and the preview of the first three records. The counts are the lengths of the input and of `Ingest.Ingest`'s result.
- `Object.keys` lists array-index keys before the others. The model takes the keys in header order; `Headers.ArrayIndicesFirstKeepResolution` proves that moving array indices to the front, in any order, does not change which key is chosen.
- JavaScript strings are UTF-16 and can hold lone surrogates. The model's `char` is a Unicode scalar value, so lone surrogates are not modelled. Case-insensitive matching is modelled as ASCII upper-casing, which is how a non-`u` `/i` pattern treats the ASCII letters these patterns contain.
- `src/js/generate-images.mjs` and the rest of the site are not part of this model.
