# Lights Out DC cleaning scripts, modelled in Dafny

The repository turns volunteer spreadsheets of birds found after window
collisions in Washington, DC into cleaned sheets and per-address and
per-year species counts. This project models its cleaning core:

- `clean_data.py`:
  - the rule tables (lines 24-370);
  - `clean_address`: cuts, literal replacements, regular-expression rewrites and a final exact remap, with `"Unknown"` for a missing address;
  - `clean_bird`: title case, substring and exact tables, collapsing anything unidentified to `"Unknown"`, and ` Sp` spelled out as ` Species`;
  - `get_bird_gender`, `clean_date`, `get_variably_named_val` and `get_year`;
  - the loop of `get_cleaned_data`, which annotates each line and folds it into the two count maps.
- `clean_2023_data.py`: `clean_cw_id`, `coalese`, `clean_row` (an in-place key overwrite) and `get_canonical_row`.
- `aggregate_by_bldg.py`: the older `clean_address`.

Modules follow the scripts:

- `Text` covers Python's string operations (`split`, `replace`, `strip`, `split()`/`join`, `find`, `lower`).
- `Rules` covers the two kinds of rule tables: substring replacement in order, and exact-match remapping.
- `Tables` holds the constants, one per table row, named after their line.
- `Address` and `AddressRewrites` model `clean_address`.
- `Bird` models `clean_bird` and `get_bird_gender`.
- `Dates` models `clean_date` and `get_year`.
- `Rows` models `get_variably_named_val`.
- `Aggregate` models `get_cleaned_data`.
- `Merge` models the 2023 script.
- `Legacy` models the older address cleaner.
- `Samples` and `BirdSamples` hold the worked cases the code singles out.

A spreadsheet row is a `map<string, Option<string>>`, where `None` is a missing or null cell. A cell is truthy when it holds a non-empty string. Python exceptions become `Result` values: the assertion in `clean_cw_id`, a missing column in `clean_row` (`KeyError`), and the `AttributeError` that `clean_bird` and `clean_cw_id` raise on a `None` cell, which `csv.DictReader` gives for a short row.

The rule tables are parameters of the pipelines (`CleanAddressWith`, `CleanBirdWith`). Properties are therefore proved for any tables that meet simple conditions, and hold for the repository's, which `RepositoryTables` and the `Repository` configurations plug in.

Where the code and its documentation disagree, the model follows the code:

- **The pre-clean table is discarded.** Lines 388-390 of `clean_data.py` collapse whitespace and apply the pre-clean table, but line 391 starts again from the raw address. So the pre-clean table has no effect (`Address.PreCleanIgnored`).
- **Empty date parts are kept.** `clean_date` does not drop empty parts of a doubled separator. It special-cases the two known dates instead (`Samples.FirstHardCodedParts`).
- **Padding ignores the field's length.** The date fields are padded whenever their length differs from 2 (or 4 for the year), not only when they are one digit long.

## Model

| member | source | states |
|---|---|---|
| Address.CleanAddress | clean_data.py:386-458 | `clean_address` with the repository's tables; every `Address` property is proved for any tables and so covers it |
| Address.PreCleaned | clean_data.py:388-390 | the whitespace collapse and pre-clean table whose result line 391 discards, as `Address.PreCleanIgnored` proves |
| Address.CutAtSemicolon | clean_data.py:391 | drops `.`, keeps what precedes the first `;`, strips it and turns line feeds into spaces; `Address.CutAtSemicolonClear` states its result |
| Address.SpellOutAnd | clean_data.py:392 | `&` becomes `and` and ` And ` becomes ` and `; `Address.SpellOutAndChars` states its result |
| Address.FixQuadrants | clean_data.py:393-395 | for each quadrant in turn, `, d` becomes ` d` and every whole word `d` in any case is upcased; `Address.FixQuadrantsChars` states its result |
| Address.StripQuadrants | clean_data.py:396-397 | the guarded substitution and strip; `Address.StripQuadrantsIsStrip` proves it is a plain strip |
| Address.CutAtSeparators | clean_data.py:398-399 | keeps what precedes the first ` - `, then `,`, then `(`; `Address.CutAtSeparatorsClear` states its result |
| Address.AppendNwAll | clean_data.py:404-405 | applies the ` NW` rewrite for each street in turn; `Address.AppendNwAllChars` and `AddressRewrites.AppendNwSpec` state what it does |
| Address.FixSuffixes | clean_data.py:402-406 | the ` noma`, `Condominium`, ` NW` and `NW /` rewrites in order; `Address.FixSuffixesChars` states its result |
| Address.CutAtEndings | clean_data.py:408-409 | cuts the line after each ending in turn; `Address.CutAtEndingsChars` states its result |
| Address.Tidy | clean_data.py:407-411 | strip and whitespace collapse, the endings, ` to the right` and the hyphen squeeze; `Address.TidyChars` states its result |
| Address.FixBuildings | clean_data.py:412-413 | the three building rewrites in order; `Address.FixBuildingsChars` states its result |
| Address.Prepared | clean_data.py:391-399 | lines 391-399 in order; `Address.PreparedClear` states its result |
| Address.Rewritten | clean_data.py:400-413 | the substring table, then lines 402-413; `Address.RewrittenChars` states its result |
| Address.Remapped | clean_data.py:391-457 | the prepared and rewritten address through the final exact remap; `Address.RemappedClear` states its result |
| Address.CleanAddressWith | clean_data.py:386-458 | the cleaned address is never empty, and is `"Unknown"` whenever the raw cell is `None` or empty |
| Address.PreCleanIgnored | clean_data.py:388-391 | two table sets that differ only in the pre-clean table give the same result for every address: lines 388-390 are overwritten by line 391 |
| Address.CutAtSemicolonClear | clean_data.py:391 | after line 391 the address holds no `.` and no `;` |
| Address.SpellOutAndChars | clean_data.py:392 | after line 392 no `&` is left, and every new character is a space or a letter |
| Address.FixQuadrantsChars | clean_data.py:393-395 | the quadrant loop brings in only spaces and ASCII letters, for any list of two-letter tokens |
| Address.StripQuadrantsIsStrip | clean_data.py:396-397 | on a string without `&`, lines 396-397 are exactly `strip()` |
| Address.QuadrantsThenStrip | clean_data.py:392-397 | in the pipeline the guard of line 396 always holds, so lines 396-397 only strip the ends |
| Address.QuadrantsStageClear | clean_data.py:391-397 | after line 397 there is still no `.` and no `;` |
| Address.CutAtSeparatorsClear | clean_data.py:398-399 | after cutting at ` - `, `,` and `(`, none of `.`, `;`, `,`, `(` remains |
| Address.PreparedClear | clean_data.py:391-399 | lines 391-399 leave no separator character, whatever the input |
| Address.DirectionsAreTokens | clean_data.py:371 | every entry of DIRECTIONS is two ASCII letters |
| Address.NeedsNwAreStreets | clean_data.py:404 | each street that needs ` NW` is non-empty and made of rule characters |
| Address.EndingsAreRuleText | clean_data.py:292 | the address endings are non-empty and made of rule characters |
| Address.AppendNwAllChars | clean_data.py:404-405 | the ` NW` loop only brings in characters of ` NW` |
| Address.FixSuffixesChars | clean_data.py:402-406 | lines 402-406 bring in only characters that may appear in a rule target |
| Address.SuffixStageChars | clean_data.py:402-406 | the same for any list of streets |
| Address.CutAtEndingsChars | clean_data.py:408-409 | cutting after the endings brings in only rule characters |
| Address.TidyChars | clean_data.py:407-411 | lines 407-411 bring in only rule characters |
| Address.TidyStageChars | clean_data.py:407-411 | the same for any list of endings |
| Address.CollapseStageChars | clean_data.py:407 | the strip and whitespace collapse of line 407 bring in only spaces |
| Address.FixBuildingsChars | clean_data.py:412-413 | the building fixes bring in only rule characters |
| Address.RewrittenChars | clean_data.py:400-413 | lines 400-413 bring in only characters a rule target may hold, which exclude `.`, `;`, `,`, `(`, `?` and line feeds |
| Address.RemappedClear | clean_data.py:391-457 | before the empty check the address holds none of `.`, `;`, `,`, `(` |
| Address.CleanAddressClear | clean_data.py:391-458 | a cleaned address never holds `.`, `;`, `,` or `(`: no later stage and no rule target brings one back |
| AddressRewrites.UpcaseTokenSpec | clean_data.py:395 | the case-insensitive whole-word rewrite keeps the length, writes the token over every occurrence and leaves every other character alone |
| AddressRewrites.UpcaseTokenChars | clean_data.py:395 | that rewrite only brings in the token's letters |
| AddressRewrites.UpcaseToken | clean_data.py:395 | `re.sub("(?i)\\bd\\b", d, s)` as a scan from the left; `AddressRewrites.UpcaseTokenSpec` states what it computes |
| AddressRewrites.KeepTokensFrom | clean_data.py:397 | the substitution of each quadrant by itself gives the string back unchanged |
| AddressRewrites.RemoveNomaChars | clean_data.py:402 | deleting ` noma` only removes characters |
| AddressRewrites.RemoveNoma | clean_data.py:402 | deletes each run of whitespace followed by `noma` in any case and a word boundary; `AddressRewrites.RemoveNomaChars` states its result |
| AddressRewrites.PluraliseCondominiumChars | clean_data.py:403 | the `Condominiums` rewrite only brings in an `s` |
| AddressRewrites.PluraliseCondominium | clean_data.py:403 | each `Condominium` before a word boundary gets an `s`; `AddressRewrites.PluraliseCondominiumChars` states its result |
| AddressRewrites.AppendNwSpec | clean_data.py:404-405 | ` NW` is appended exactly when the address, trailing whitespace aside, ends with the street, and the trailing whitespace is dropped; otherwise the address is unchanged |
| AddressRewrites.AppendNw | clean_data.py:405 | the first position where the street starts and only whitespace follows ends the text with ` NW`; `AddressRewrites.AppendNwSpec` states it |
| AddressRewrites.TruncateNwSlashChars | clean_data.py:406 | cutting after `NW /` only removes characters |
| AddressRewrites.TruncateNwSlash | clean_data.py:406 | each `NW`, optional whitespace and `/` loses the rest of its line; `AddressRewrites.TruncateNwSlashChars` states its result |
| AddressRewrites.CutLineSingleLine | clean_data.py:409-410 | on one line, a `pattern.*` substitution keeps what precedes the first occurrence and puts the replacement in its place; without an occurrence the text is unchanged |
| AddressRewrites.CutLineChars | clean_data.py:409-410 | such a cut brings in only characters of the replacement |
| AddressRewrites.CutLine | clean_data.py:409-410 | each occurrence of the pattern and the rest of its line becomes the replacement; `AddressRewrites.CutLineSingleLine` states its result |
| AddressRewrites.SqueezeHyphensSpec | clean_data.py:411 | after `-+` → `-` no two hyphens are adjacent and no character is new |
| AddressRewrites.SqueezeHyphens | clean_data.py:411 | a non-empty text keeps its first character; the lemmas below state what it computes |
| AddressRewrites.DropRepeatedHyphens | clean_data.py:411 | an independent reference: a hyphen is dropped exactly when it follows a hyphen of the input; never longer than the input |
| AddressRewrites.SqueezeHyphensDropsRepeats | clean_data.py:411 | squeezing each run of hyphens to one equals dropping every hyphen that follows a hyphen |
| AddressRewrites.SqueezeHyphensKeepsOthers | clean_data.py:411 | only hyphens are removed: with the hyphens taken out, the text before and after is the same |
| AddressRewrites.SqueezeHyphensIdle | clean_data.py:411 | a text with no two adjacent hyphens is unchanged |
| AddressRewrites.SqueezeHyphensTwice | clean_data.py:411 | squeezing twice is squeezing once |
| AddressRewrites.Dehyphen | clean_data.py:411 | the text with every hyphen taken out, which holds no hyphen |
| Rules.ReplaceAllChars | clean_data.py:400-401 | a substring table brings in only characters a rule target may hold |
| Rules.ReplaceAllAbsent | clean_data.py:481-482 | a substring table none of whose patterns occurs changes nothing |
| Rules.ReplaceAllSkip | clean_data.py:481-482 | leading rules whose patterns do not occur can be skipped |
| Rules.ReplaceAll | clean_data.py:400-401 | `str.replace` with each rule of a substring table in order; `Rules.ReplaceAllChars`, `Rules.ReplaceAllAbsent` and `Rules.ReplaceAllSkip` state its properties |
| Rules.FirstMatch | clean_data.py:456 | finds the first entry whose `from` equals the value, and no earlier entry matches |
| Rules.RemapExact | clean_data.py:455-457 | each entry in order replaces the value when it equals the entry's `from`; `Rules.RemapSettles`, `Rules.RemapUnmatched` and `Rules.RemapOutcome` state its properties |
| Rules.RemapUnmatched | clean_data.py:456-457 | a value no entry matches passes through the exact remap unchanged |
| Rules.RemapMissing | clean_data.py:483-485 | the same, stated on membership in the table |
| Rules.RemapSettles | clean_data.py:456-457 | a matched value ends as that entry's target when no later entry matches the target |
| Rules.RemapIsLookup | clean_data.py:414-457 | without chains of entries, the sequential remap is a lookup of the first matching entry |
| Rules.RemapOutcome | clean_data.py:414-457 | the remap yields the input or one of the table's targets |
| Rules.RemapAppend | clean_data.py:483-485 | remapping with a concatenated table is remapping with each part in turn |
| Rules.RemapChars | clean_data.py:414-457 | the remap brings in only characters a rule target may hold |
| Bird.Title | clean_data.py:479 | `str.title()`: `Bird.TitleFrom` from the start of the text; `Bird.TitleCase` states its result |
| Bird.Truncated | clean_data.py:479 | the part before the first `(` and then `,`, title-cased, `'S` fixed and stripped; `Bird.TruncatedClear` states its result |
| Bird.Renamed | clean_data.py:479-485 | line 479, the whitespace collapse and both tables; `Bird.RenamedClear` states its result |
| Bird.UnknownIfUnnamed | clean_data.py:486-487 | a name mentioning `Unidentified` or `Unknown` becomes `"Unknown"`; `Bird.UnnamedIsUnknown` and `BirdSamples.KeepsNamed` state both sides |
| Bird.ExpandSp | clean_data.py:488 | ` Sp` at the end, or before a final line feed, becomes ` Species`; `BirdSamples.ExpandSpTail` and `BirdSamples.ExpandSpNone` state both sides |
| Bird.CleanBird | clean_data.py:473-489 | `clean_bird` with the repository's tables; `Bird.CleanBirdRepositoryClear` and `Bird.CleanBirdEmptyIsUnknown` state its properties |
| Bird.TitleFrom | clean_data.py:479 | `str.title()` keeps the length, changes only the case of letters and leaves other characters alone |
| Bird.TitleFromCase | clean_data.py:479 | a letter comes out upper case exactly when it does not follow a letter |
| Bird.TitleCase | clean_data.py:479 | the same for a whole string: upper case exactly at the start of each run of letters |
| Bird.TitleFromAppend | clean_data.py:479 | title-casing a concatenation is title-casing each part, the second knowing whether the first ended in a letter |
| Bird.TitleKeepsNonLetters | clean_data.py:479 | a non-letter occurs in the title-cased text exactly when it occurs in the input |
| Bird.CleanBirdWith | clean_data.py:473-489 | the cleaned species has no leading or trailing whitespace |
| Bird.TruncatedClear | clean_data.py:479 | after line 479 no `(` and no `,` remain |
| Bird.RenamedClear | clean_data.py:479-485 | when the substring table starts with `?` → `""`, no `(`, `,` or `?` is left after the tables |
| Bird.QuestionMarksRemoved | clean_data.py:294 | a substring table that starts by dropping `?` leaves none |
| Bird.UnknownIfUnnamedClear | clean_data.py:486-487 | the collapse to `"Unknown"` brings in no separator |
| Bird.ExpandSpChars | clean_data.py:488 | the ` Sp$` rewrite only brings in characters of ` Species` |
| Bird.ExpandSpClear | clean_data.py:488 | that rewrite brings in no separator |
| Bird.CleanBirdClear | clean_data.py:479-489 | for any such tables, the cleaned species holds no `(`, `,` or `?` |
| Bird.RepositorySubstrings | clean_data.py:293-299 | the repository's substring table starts with `?` and has no empty pattern |
| Bird.CleanBirdRepositoryClear | clean_data.py:479-489 | with the repository's tables, the cleaned species holds no `(`, `,` or `?` |
| Bird.UnnamedIsUnknown | clean_data.py:486-487 | a name that mentions `Unidentified` or `Unknown` after the tables comes out as `"Unknown"` |
| Bird.UnknownMentionsUnknown | clean_data.py:300 | the unknown-bird constant is itself caught by that test |
| Bird.UnknownSettled | clean_data.py:488-489 | `"Unknown"` survives the last two lines unchanged |
| Bird.EmptiedIsUnknown | clean_data.py:481-489 | when the substring pass empties the name and the exact table sends `""` to `"Unknown"`, the result is `"Unknown"` |
| Bird.ReplaceAllEmpty | clean_data.py:481-482 | substring rules with non-empty patterns leave the empty string empty |
| Bird.EmptyBirdIsUnknown | clean_data.py:479-489 | a name that line 479 empties comes out as `"Unknown"`, for any such tables |
| Bird.EmptyRun | clean_data.py:302-309 | the first rows of the exact table send `""` to `"Unknown"` |
| Bird.UnknownRuns | clean_data.py:310-370 | no later row of the exact table names `"Unknown"`, so it stays |
| Bird.RemapRepository | clean_data.py:483-485 | the repository's exact table is its seven runs in turn, each leaving alone a value it does not name |
| Bird.CleanBirdEmptyIsUnknown | clean_data.py:479-489 | with the repository's tables, a name line 479 empties becomes `"Unknown"` |
| Bird.CleanBirdEmptiedIsUnknown | clean_data.py:479-489 | with the repository's tables, a name that the substring pass empties becomes `"Unknown"` |
| Bird.EmptyInputIsUnknown | clean_data.py:479-489 | the empty species becomes `"Unknown"` |
| Bird.GetBirdGender | clean_data.py:461-470 | the tests of lines 467 and 469 in order: `"male"` exactly when the name has `(m)`/`(m.)` in any case or the whole word `male`; `"female"` exactly when it has none of those but `(f)`/`(f.)` or the word `female`; `None` exactly when it has none of them |
| Bird.FemaleWordIsNotMale | clean_data.py:467-469 | the word `female` never contains a whole-word match of `male` |
| Bird.FemaleOnlyIsFemale | clean_data.py:467-470 | a name with the word `female`, no `(m)` tag, and no `male` letters except those ending a whole word `female` is female: the `male` test cannot match inside `female` |
| BirdSamples.WarblerSpDot | clean_data.py:479-489 | `"Warbler sp."` becomes `"Warbler Species"` |
| BirdSamples.WarblerSpNoDot | clean_data.py:479-489 | `"Warbler sp"` becomes `"Warbler Species"` |
| BirdSamples.CleanBirdStages | clean_data.py:479-489 | composes the result of `clean_bird` from the result of each stage |
| BirdSamples.TitleWarblerSpDot | clean_data.py:479 | `title()` turns `Warbler sp.` into `Warbler Sp.` |
| BirdSamples.TitleWarblerSp | clean_data.py:479 | `title()` turns `Warbler sp` into `Warbler Sp` |
| BirdSamples.TitledSettled | clean_data.py:479 | a stripped name without apostrophes is unchanged by the `'S` fix and the strip |
| BirdSamples.SubstringsWarblerSpDot | clean_data.py:481-482 | the substring table turns `Warbler Sp.` into `Warbler Species` |
| BirdSamples.SubstringsWarblerSp | clean_data.py:481-482 | the substring table leaves `Warbler Sp` alone |
| BirdSamples.SubstringsSpDot | clean_data.py:293-299 | a name ending in ` Sp.` whose stem triggers no earlier rule gets ` Species` |
| BirdSamples.SubstringsNone | clean_data.py:293-299 | a name containing no character that starts a pattern is left alone |
| BirdSamples.RemapWarbler | clean_data.py:483-485 | neither warbler name is in the exact table |
| BirdSamples.SpExpanded | clean_data.py:488 | ` Sp` at the end becomes ` Species` |
| BirdSamples.ExpandSpTail | clean_data.py:488 | any name ending in ` Sp` has it spelled out |
| BirdSamples.ExpandSpNone | clean_data.py:488 | a name not ending in `p` or a line feed is unchanged |
| BirdSamples.KeepsNamed | clean_data.py:486-487 | a name without `U` is not collapsed to `"Unknown"` |
| BirdSamples.MaleTagExample | clean_data.py:467-468 | `(m)` gives `"male"` |
| BirdSamples.DottedMaleTagExample | clean_data.py:467-468 | `(M.)` gives `"male"` |
| BirdSamples.MaleWordExample | clean_data.py:467-468 | `Male` gives `"male"` |
| BirdSamples.FemaleTagExample | clean_data.py:467-470 | `(f.)` gives `"female"` |
| BirdSamples.FemaleWordExample | clean_data.py:467-470 | `female` gives `"female"`, though it ends in the letters `male` |
| Dates.DateValue | clean_data.py:510-514 | the truthy `Date` cell, else the truthy `date` cell, else the empty string, which occurs exactly when neither is truthy |
| Dates.CleanDate | clean_data.py:504-532 | a row without a date gives `"Unknown"` |
| Dates.MissingDateIsUnknown | clean_data.py:510-517 | no truthy `Date` or `date` cell gives `"Unknown"` |
| Dates.DatePrecedence | clean_data.py:511-514 | when `Date` is filled in, the `date` cell does not matter |
| Dates.OtherColumnsIgnored | clean_data.py:504-532 | only the two date columns are read |
| Dates.WrongPartCountIsUnknown | clean_data.py:526-528 | any date other than the two hard-coded ones that does not split into three parts gives `"Unknown"` |
| Dates.MonthDayIsUnknown | clean_data.py:518-528 | a digits-only month/day date without a year gives `"Unknown"` |
| Dates.MonthDayYear | clean_data.py:518-532 | a digits-only month/day/year date, separated by `/` or `-`, gives an ISO date with the same month, day and year, two-digit years read as 20xx |
| Dates.MonthDayYearText | clean_data.py:518-532 | the text of that result: padded year, month and day joined by `-` |
| Dates.MonthDayYearParts | clean_data.py:518-521 | such a date splits into its three fields |
| Dates.DatePartsOn | clean_data.py:518-521 | a stripped date is split on `/` exactly when it holds one |
| Dates.DateParts | clean_data.py:518-521 | the stripped date split on `/` when it holds one, else on `-`; `Dates.DatePartsOn` and `Dates.MonthDayYearParts` state its result |
| Dates.Padded | clean_data.py:529-531 | a field of the expected length is kept, any other gets the prefix once; `Dates.PaddedValue` and `Dates.PaddedYearValue` state its result |
| Dates.CleanDateValue | clean_data.py:518-532 | lines 518-532 for a non-empty date; `Dates.MonthDayYear`, `Dates.WrongPartCountIsUnknown` and `Samples.FirstHardCodedDate` state its results |
| Dates.PaddedValue | clean_data.py:529-530 | padding a one- or two-digit field gives two digits with the same value |
| Dates.PaddedYearValue | clean_data.py:531 | padding a two- or four-digit year gives four digits whose value is the year read as 20xx |
| Dates.NotHardCoded | clean_data.py:522-525 | no digits-only month/day/year date is one of the two hard-coded strings |
| Dates.FirstFourDigits | clean_data.py:663 | finds the leftmost position where four digits start, and none starts earlier |
| Dates.GetYear | clean_data.py:657-663 | `None` (the search failing) exactly when the name has no four-digit run; otherwise the value of the leftmost one, below 10000 |
| Rows.GetVariablyNamedVal | clean_data.py:492-501 | `None` exactly when no alias has a truthy value; otherwise the value of the first alias that has one |
| Rows.VariablyNamedIgnores | clean_data.py:499-501 | setting a column that is not an alias does not change the result |
| Aggregate.Restrict | clean_data.py:571 | the cleaned row keeps exactly the clean-sheet columns of the line, with their values |
| Aggregate.ProcessLine | clean_data.py:552-571 | a line is skipped exactly when it has no species, is marked `Not used`, or its species cleans to `deleted`; a kept line is counted under its cleaned species, and its row holds only clean-sheet columns; it holds the cleaned species and the cleaned address whenever those are clean-sheet columns, and a `Date` column whenever that is one, whose value `Aggregate.RepositoryLine` gives |
| Aggregate.CountLine | clean_data.py:572-575 | one sighting adds one to the species under its address and year, creating the address entry if needed, and one to the species under the year |
| Aggregate.GetCleanedData | clean_data.py:545-576 | the rows, address counts and species counts are those of the kept lines, in order |
| Aggregate.WithSex | clean_data.py:555-556 | a line without the sex column gets the gender of the raw species; one that has it, even empty, is kept as it is |
| Aggregate.Named | clean_data.py:555-561 | the line with its sex, raw species and cleaned species columns written; `Aggregate.ProcessLine` states its effect |
| Aggregate.Located | clean_data.py:564-569 | the line with its cleaned and raw address columns written; `Aggregate.ProcessLine` states its effect |
| Aggregate.KeptLines | clean_data.py:550-571 | the entries of the kept lines, in order; `Aggregate.KeptLinesStep` states each step |
| Aggregate.Bump | clean_data.py:574-575 | `d.get(key, 0) + 1` stored under the key; `Aggregate.TallyCounts` states the resulting counts |
| Aggregate.Tally | clean_data.py:575 | the species counts of the kept lines; `Aggregate.TallyCounts` states them |
| Aggregate.Record | clean_data.py:572-574 | one kept line's count at its address and year; `Aggregate.AddressTallyValues` and `Aggregate.CountAt` state the results |
| Aggregate.AddressTally | clean_data.py:572-574 | the address counts of the kept lines; `Aggregate.AddressTallyKeys`, `Aggregate.AddressTallyValues` and `Aggregate.CountAt` state them |
| Aggregate.KeptLinesStep | clean_data.py:551-554 | a kept line appends its entry; a skipped one adds nothing |
| Aggregate.FoldsStep | clean_data.py:571-575 | one more entry is one more step of each fold |
| Aggregate.TallyCounts | clean_data.py:575 | a species count is the number of kept lines with that species, and only species that occur are keys |
| Aggregate.AddressTallyKeys | clean_data.py:572-573 | the address counts hold exactly the cleaned addresses of kept lines |
| Aggregate.AddressTallyValues | clean_data.py:572-574 | each address has one year entry: the species counts of its own lines |
| Aggregate.AddressTallyHasYear | clean_data.py:573-574 | every address entry holds the year, so the lookup at line 574 always succeeds |
| Aggregate.CountAt | clean_data.py:574 | the count of a species at an address is the number of kept lines with that address and species |
| Aggregate.AnnotationsAreNotAddresses | clean_data.py:555-564 | the columns written before the address is read are not address aliases |
| Aggregate.AnnotationsAreNotDates | clean_data.py:555-570 | the columns written before the date is read are not date columns |
| Aggregate.RepositoryLine | clean_data.py:552-570 | with the repository's cleaners, a kept line is counted under the cleaned species of its raw species and the cleaned address of its own address cell, which is never empty, and its `Date` column is its cleaned date |
| Merge.CleanCwId | clean_2023_data.py:12-18 | no id exactly when the input is blank; an assertion failure exactly when the stripped id has two dash parts and the first is not `23`; otherwise `23-` followed by a part with no dash |
| Merge.BareId | clean_2023_data.py:15-18 | an id without a dash gets the `23-` prefix |
| Merge.PrefixedId | clean_2023_data.py:15-18 | an id already prefixed with `23-` comes back as it is |
| Merge.CleanCwIdIdempotent | clean_2023_data.py:12-18 | cleaning a cleaned id changes nothing |
| Merge.ForeignIdFails | clean_2023_data.py:16-17 | a two-part id whose first part is not `23` fails the assertion |
| Merge.SplitLastIsSuffix | clean_2023_data.py:18 | the last dash part is a suffix of the id |
| Merge.Coalese | clean_2023_data.py:21-24 | `None` exactly when no value is truthy and not `"Unknown"`; otherwise the first such value |
| Merge.AddressCell | clean_2023_data.py:29 | each address cell cleaned by the address cleaner; it never fails, since `clean_address` sends a `None` cell to `"Unknown"` |
| Merge.BirdCell | clean_2023_data.py:30 | each species cell cleaned by the species cleaner, and an `AttributeError` for a `None` cell, which has no `split` |
| Merge.CwIdCell | clean_2023_data.py:31 | each id cell cleaned by `Merge.CleanCwId`, with its assertion failure, and an `AttributeError` for a `None` cell, which has no `strip` |
| Merge.MapCells | clean_2023_data.py:29-31 | each list comprehension gives one cleaned cell per column, in order, or the failure of a column that is missing or refused |
| Merge.CleanedFields | clean_2023_data.py:28-37 | the four cleaned keys, with the cleaned date and the coalesced addresses, species and ids, or the failure raised on the way |
| Merge.Fields | clean_2023_data.py:32-37 | the dictionary `cleaned` has exactly the keys `date`, `address`, `species`, `cw_id` with the given values |
| Merge.UpdateOverwrites | clean_2023_data.py:38 | `row.update(cleaned)` overwrites exactly the four cleaned keys and keeps every other cell |
| Merge.Record.constructor | clean_2023_data.py:27 | a record holds the cells it is built from |
| Merge.Record.CleanRow | clean_2023_data.py:27-39 | on success the row becomes its old cells updated with the cleaned fields; on failure it is left as it was and the failure is returned |
| Merge.Filled | clean_2023_data.py:50-53 | the copy keeps exactly the truthy cells of the row, with their values |
| Merge.GetCanonicalRow | clean_2023_data.py:42-55 | returns the canonical row of the rows |
| Merge.CanonicalKeys | clean_2023_data.py:48-55 | a key is in the canonical row exactly when some row fills it in |
| Merge.CanonicalIsLast | clean_2023_data.py:48-55 | the canonical value of a key comes from the last row that fills it in |
| Merge.CanonicalFilled | clean_2023_data.py:48-55 | the canonical row holds no empty value |
| Merge.CanonicalStep | clean_2023_data.py:54 | one more row: its filled cells win, and the other keys keep their earlier values |
| Merge.Canonical | clean_2023_data.py:48-55 | each row's filled cells laid over those of the rows before it; `Merge.CanonicalKeys`, `Merge.CanonicalIsLast` and `Merge.CanonicalFilled` state its result |
| Legacy.CommaFix | aggregate_by_bldg.py:6 | the first step leaves no `.` and only brings in quadrant letters and spaces |
| Legacy.QuadrantCut | aggregate_by_bldg.py:7 | the quadrant cut only removes characters |
| Legacy.QuadrantCutNone | aggregate_by_bldg.py:7 | without a quadrant the text is unchanged |
| Legacy.QuadrantCutOneLine | aggregate_by_bldg.py:7 | on one line, the text ends at the end of its first quadrant |
| Legacy.WithQuadrant | aggregate_by_bldg.py:9 | every part kept mentions a quadrant and is one of the parts; none is kept exactly when no part mentions one, and the first kept is the first that does |
| Legacy.Pick | aggregate_by_bldg.py:10-13 | the first part with a quadrant, else the first part |
| Legacy.ParenParts | aggregate_by_bldg.py:14 | the `(` pieces, each with `)` removed |
| Legacy.SpellingFixes | aggregate_by_bldg.py:20 | the five fixes only bring in characters of their targets |
| Legacy.StreetClean | aggregate_by_bldg.py:8-13 | the chosen comma part holds no `,` and no `.` |
| Legacy.NamedClean | aggregate_by_bldg.py:14-19 | the chosen paren part holds none of `.`, `,`, `(`, `)` |
| Legacy.LegacyCleanAddress | aggregate_by_bldg.py:5-21 | the older `clean_address`, stage by stage; `Legacy.LegacyCleanAddressClean` and `Legacy.LegacyCleanAddressStripped` state its result |
| Legacy.LegacyCleanAddressClean | aggregate_by_bldg.py:5-21 | the legacy result holds none of `.`, `,`, `(`, `)` and has no leading or trailing whitespace |
| Legacy.LegacyCleanAddressStripped | aggregate_by_bldg.py:21 | stripping the result again changes nothing |
| Samples.FirstHardCodedDate | clean_data.py:522-523 | `9-30--2018` gives `2018-09-30` |
| Samples.FirstHardCodedParts | clean_data.py:518-523 | without the override that date would split into four parts |
| Samples.SecondHardCodedDate | clean_data.py:524-525 | `10//28/20` gives `2020-10-28` |
| Samples.SecondHardCodedParts | clean_data.py:518-525 | without the override that date would split into four parts |
| Samples.TwoPartDateIsUnknown | clean_data.py:518-528 | a row whose date is `12/12` gives `"Unknown"` |
| Samples.ShortDateExample | clean_data.py:518-532 | a row whose date is `1/1/22` gives `2022-01-01` |
| Samples.BareIdExample | clean_2023_data.py:15-18 | `0045` gives `23-0045` |
| Samples.PrefixedIdExample | clean_2023_data.py:15-18 | `23-0045` gives `23-0045` |
| Samples.ForeignIdExample | clean_2023_data.py:16-17 | `22-0045` fails the assertion |
| Samples.BlankIdExample | clean_2023_data.py:13-14 | a blank id gives no id |
| Samples.ColumbusRemapped | clean_data.py:414-457 | the final remap sends `1 Columbus Circle` to `1 Columbus Circle NE` |
| Samples.UnnamedAddressKept | clean_data.py:456-457 | the final remap leaves `1530 Newton St NE` unchanged |
| Text.Before | clean_data.py:398-399 | `s.split(sep)[0]` is the prefix before the first occurrence of `sep`, or all of `s` |
| Text.Split | clean_data.py:518-521 | `s.split(sep)` for a non-empty separator, at least one piece, as the date split uses it and as `clean_cw_id` and the older `clean_address` do; `Text.JoinSplit` and `Text.SplitPiecesAvoid` state its result |
| Text.IndexOf | clean_data.py:398-399 | the leftmost occurrence of the pattern, and no occurrence before it; `None` exactly when there is none |
| Text.JoinSplit | clean_data.py:398-399 | joining the pieces of `s.split(sep)` with `sep` gives `s` back |
| Text.SplitPiecesAvoid | clean_data.py:398-399 | no piece of `s.split(sep)` contains `sep` |
| Text.ReplaceIsJoinSplit | clean_data.py:481-482 | `replace` substitutes every non-overlapping occurrence, left to right |
| Text.Replace | clean_data.py:481-482 | `str.replace`; `Text.ReplaceIsJoinSplit` and `Text.ReplaceChars` state its result |
| Text.ReplaceChars | clean_data.py:481-482 | every character of the result comes from the input or from the replacement |
| Text.ReplaceAbsent | clean_data.py:481-482 | a pattern that does not occur leaves the text unchanged |
| Text.Strip | clean_data.py:489 | `strip()` gives a text without leading or trailing whitespace, made of the input's characters, that is the slice of the input between an all-whitespace prefix and an all-whitespace suffix |
| Text.StripPieces | clean_data.py:489 | right-stripping the left-stripped text leaves the slice starting where the leading whitespace ends, with whitespace on both sides |
| Text.LStrip | clean_data.py:489 | `lstrip()`: a suffix of the input, all of whose removed prefix is whitespace, starting with non-whitespace |
| Text.RStrip | clean_data.py:489 | `rstrip()`: a prefix of the input, all of whose removed suffix is whitespace, ending with non-whitespace |
| Text.StripStripped | clean_data.py:489 | stripping a text without leading or trailing whitespace changes nothing |
| Text.CollapseSpaces | clean_data.py:480 | `" ".join(s.split())` leaves single spaces between non-space runs, only brings in spaces, and splits into the same words as the input |
| Text.Words | clean_data.py:480 | `split()`: each piece is a non-empty run of non-whitespace made of the input's characters; `Text.WordsAreRuns` proves the pieces are the maximal runs, in order |
| Text.Gaps | clean_data.py:480 | the whitespace around and between the words, one more than there are words |
| Text.WordsAreRuns | clean_data.py:480 | the input is its gaps and words interleaved, every gap is whitespace, and every gap between two words is non-empty, so the words are the maximal non-whitespace runs in order |
| Text.WordsOfJoin | clean_data.py:480 | words joined by single spaces split back into the same words |
| Text.CollapseTwoWords | clean_data.py:480 | two words with one space between them are left alone by the collapse |
| Text.Join | clean_data.py:480 | `sep.join(parts)`; `Text.JoinSplit` and `Text.WordsOfJoin` state it undoes a split |
| Text.LowerString | clean_data.py:558 | `lower()` keeps the length and lowers each ASCII letter |

## Left out

- Reading and writing CSV files is not modelled, nor is `argparse`, `main` or the `write_*` functions of `clean_data.py`. `get_cleaned_data` is modelled from the lines of an already read sheet.
- The `print` calls at `clean_data.py` lines 516, 527 and 566 are left out; they do not affect any result.
- `clean_data_dir.py` and `deduplicate` in `clean_2023_data.py` are file plumbing and are not part of this model.
- `clean_date_value`, which `clean_2023_data.py` imports from `clean_data.py`, is not defined there. It is the `date` parameter of `Merge.Config`. `Dates.CleanDateValue` models what `clean_date` does to a non-empty value.
- The cleaners are fields of `Aggregate.Config` and `Merge.Config`. `Aggregate.RepositoryLine` ties a kept line back to the repository's own cleaners.
- Address.CleanAddress: no contract of its own. It is `CleanAddressWith` on the repository's tables, and every address property is proved on `CleanAddressWith` for any tables. Instantiating them on the 218-row replacement table is beyond the verifier's budget.
- `tests/test_clean_data.py` line 8 is not proved end to end, for the same reason. Its parts are proved: `Address.PreparedClear` and `Address.CleanAddressClear` give the cut at the comma, and `Samples.UnnamedAddressKept` covers the final remap.
- The assertion at `tests/test_clean_data.py` line 9 does not hold for the code: line 392 turns `&` into `and`. No property is claimed for it.
- Idempotence of `clean_address` is not claimed. The substring rules can cascade.
- Rules.RemapIsLookup: holds for tables without chains. It is not proved that the repository's exact tables have none. `Samples.ColumbusRemapped` settles one entry directly.
- Bird.EmptyBirdIsUnknown: stated for any tables that send `""` to `"Unknown"`. For the repository's tables, `Bird.CleanBirdEmptyIsUnknown` discharges that assumption.
- Word characters and word boundaries (`\w`, `\b`), digits (`\d`), case-insensitive matching (`(?i)`), `str.title()` and `str.lower()` are modelled over ASCII. Python's Unicode rules for other characters are not modelled. Whitespace (`str.isspace()`, hence `strip()`, `split()` and `\s`) follows Python's full set of whitespace characters (`Text.IsSpace`). Each regular expression is a dedicated function, not a general matcher.
- Column order in an `OrderedDict`, and the column order of the written sheets, are not modelled. A row is a map.
- Dates.GetYear: the `AttributeError` raised when a file name has no four-digit run is the `None` result.
- Merge.CleanCwId: the assertion is modelled as an error result. Running Python with assertions disabled is not modelled.
- Merge.GetCanonicalRow: that the input rows are not modified holds by value semantics (rows are immutable maps). It is not a separate statement.
- Counts are unbounded integers, as Python's are.
