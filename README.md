# Rialcom tariff scraper — Dafny model

This project models the parsing core of a scraper for the Rialcom tariff page
(rialcom.ru). The page has two sections: apartment blocks ("МКД", `div#collapse1`)
and private houses (`div#collapse2`). Each section has an internet table and a
combo table (internet + interactive TV). The scraper reads them into `Tariff`
records (name, channel count, speed in Mbit/s, monthly price), validates the
records and summarises how many it found.

Two versions of the parser live side by side in the repository, and both are modelled:

- The refactored package `src/parser/`:
  - `DataExtractor` pulls numbers, speeds and channel counts out of cell text;
  - `TableParser` reads one internet or combo table;
  - `SectionParser` reads one section and builds the МКД channel map;
  - `TariffProcessor` validates and counts;
  - `RialcomParser.parse_all` coordinates the run.
- The earlier single-class `Parser` in `src/parser.py`.
  - Its section readers never raise.
  - It checks the header titles.
  - Its private-house combo rows take their channel counts from the МКД combo records.

Modules, one per source file:

| module | file | models |
|---|---|---|
| `Strings` | strings.dfy | character classes, `str.strip()`, `lower()`, `in`, `split(sep)[0]` |
| `Folds` | folds.dfy | the list-building loop patterns: filter-map, tabulate, last-write-wins dictionary |
| `Rounding` | rounding.dfy | `round(x, 1)` |
| `TariffModel` | tariff.dfy | `src/tariff.py` |
| `DataExtractor` | data_extractor.dfy | `src/parser/data_extractor.py` |
| `Page` | page.dfy | the parsed HTML, reduced to what the parsers look at |
| `TableParser` | table_parser.dfy | `src/parser/table_parser.py` |
| `SectionParser` | section_parser.dfy | `src/parser/section_parser.py`, with `Selectors` from `src/config.py` |
| `TariffProcessor` | tariff_processor.dfy | `src/parser/tariff_processor.py`, with `Constants` from `src/config.py` |
| `RialcomParser` | rialcom_parser.dfy | `src/parser/parser.py` |
| `LegacyParser` | legacy_parser.dfy | `src/parser.py` |

**How the model is built.**

- Pure code (the extractors, the record constructor, the regular expressions) is written as functions.
- Every loop that builds a list or a dictionary is written as a method with a loop, proved equal to a specification function. Those loops are:
  - the row loops;
  - the header loop;
  - the column loop;
  - validation;
  - the channel maps;
  - `parse_all`.
- The specification functions are folds from `Folds`. Their properties are proved once, generically, and then instantiated.
- Where the refactored code raises (an attribute lookup on a missing element, an unbound name), the model returns a `Failure` carrying the reason.
- Where the legacy code catches the exception, the model returns no records.

**Where the refactored parser behaves differently from the legacy one.**

- The legacy readers give no records when a section, header or table is missing (src/parser.py:119-134). In those cases the refactored `parse_section` raises instead:
  - it raises on a section without a `div.bg-danger` or `div.bg-dark` header;
  - it raises on a table without `thead` or `tbody`;
  - it raises on a combo table in a section without an internet table, because `section_name` is then unbound (src/parser/section_parser.py:27-37).
- `extract_speed` returns no speed for a speed of 0, because of the truthiness test at src/parser/data_extractor.py:25.
- `extract_mkd_channels_map` skips a channel count of 0.
- The legacy map stores every МКД combo record's count, absent counts included.

## Model

| member | source | states |
|---|---|---|
| Strings.StripSlice | src/parser/table_parser.py:23 | `strip()` returns the slice between the leading and trailing whitespace runs; the slice starts and ends with a visible character |
| Strings.StripKeepsNonWs | src/parser/table_parser.py:23 | stripping removes only whitespace: the visible characters, in order, are unchanged |
| Strings.LowerChar | src/parser/data_extractor.py:22 | lower-casing one character leaves no capital letter, changes nothing that is not a capital letter, and keeps whitespace and digits |
| Strings.Lower | src/parser/data_extractor.py:22 | `lower()` keeps the length and leaves no capital letter |
| Strings.LowerOfNoUpper | src/parser/data_extractor.py:22 | text without capital letters is its own lower case |
| Strings.LowerIdempotent | src/parser/data_extractor.py:22 | lower-casing twice is lower-casing once |
| Strings.NatToDigitsRoundTrip | src/parser/data_extractor.py:41 | reading back the decimal rendering of a count gives the count (`int` of the digits captured) |
| Rounding.Round1 | src/parser/data_extractor.py:26 | `round(x, 1)` is within 0.05 of x and is a whole number of tenths |
| Rounding.Round1AtMost | src/parser/tariff_processor.py:35 | rounding a value below a whole number never goes above it |
| Rounding.Round1Whole | src/parser/tariff_processor.py:35 | a whole number is left as it is |
| Rounding.Round1NotNegative | src/parser/tariff_processor.py:35 | a non-negative value rounds to a non-negative value |
| Rounding.Round1Monotone | src/parser/tariff_processor.py:35 | rounding keeps order |
| TariffModel.Collapse | src/tariff.py:15 | `re.sub(r'\s+', ' ', …)` leaves only single spaces, and starts with whitespace exactly when the input does |
| TariffModel.CollapseKeepsNonWs | src/tariff.py:15 | collapsing only rewrites whitespace: the visible characters are unchanged |
| TariffModel.CollapseOfCollapsed | src/tariff.py:15 | text that already has only single spaces is left as it is |
| TariffModel.CollapseNoWsTail | src/tariff.py:15 | collapsing works on a prefix and leaves a following whitespace-free tail untouched |
| TariffModel.CollapseAppend | src/tariff.py:15 | collapsing distributes over any cut that does not split a whitespace run |
| TariffModel.CollapseOfWsRun | src/tariff.py:15 | a whole whitespace run becomes exactly one space |
| TariffModel.CollapseRun | src/tariff.py:15 | a whitespace run between visible text becomes exactly one space, and the text on either side is collapsed on its own |
| TariffModel.NormalizeNameJoins | src/tariff.py:14-15 | two names in normal form, with any whitespace run between them, are stored with one space between them |
| TariffModel.NormalizeNameNormalForm | src/tariff.py:14-15 | a stored name has single spaces only and no leading or trailing whitespace |
| TariffModel.NormalizeNameKeepsNonWs | src/tariff.py:14-15 | name normalisation keeps every visible character, in order |
| TariffModel.NormalFormIsFixed | src/tariff.py:14-15 | a name already in normal form is stored as given |
| TariffModel.NormalizeNameIdempotent | src/tariff.py:14-15 | normalising a stored name again changes nothing |
| TariffModel.NormalizeNameEmptyIff | src/tariff.py:14-15 | the stored name is empty exactly when the given name has no visible character |
| TariffModel.NormalizeNameKeepsSuffix | src/tariff.py:14-15 | a name ending in a whitespace-free suffix (such as "_ч") still ends in it after normalisation |
| TariffModel.StripKeepsNoWsSuffix | src/tariff.py:15 | stripping keeps a whitespace-free suffix |
| TariffModel.NormalizeSpeed | src/tariff.py:16-17 | a speed is present after normalisation exactly when it was present before |
| TariffModel.NormalizeSpeedCases | src/tariff.py:16-17 | speeds of at most 1000 are kept; larger ones are divided by 1000 and rounded to a tenth, within 0.05 of the exact quotient |
| TariffModel.NormalizeSpeedIdempotent | src/tariff.py:16-17 | for raw speeds up to 1 000 000, normalising twice is the same as normalising once |
| TariffModel.NormalizeSpeedTwiceDiffers | src/tariff.py:16-17 | above that bound, normalising twice is not the same as once (2 000 000 → 2000 → 2) |
| TariffModel.NormalizeSpeedExamples | src/tariff.py:16-17 | 1500 becomes 1.5; 50 and 0 are kept |
| TariffModel.NewTariffMeaning | src/tariff.py:6-17 | a built record stores the normalised name, which is in normal form with the same visible characters, empty only when the given name has none; channels and price as given; a speed exactly when one was given |
| TariffModel.NewTariffOfNormal | src/tariff.py:13-17 | building a record from values already normal returns them unchanged |
| TariffModel.ExcelChannels | src/tariff.py:19-21 | the exported count is the text "null" exactly when there is no count, and the count otherwise |
| TariffModel.ExcelSpeed | src/tariff.py:23-25 | the exported speed is the text "null" exactly when there is no speed, and the speed otherwise |
| TariffModel.ToDict | src/tariff.py:27-33 | the export row has the four column keys in order, the name first and the price (or `None`) last |
| TariffModel.FromDictToDict | src/tariff.py:27-33 | the export row loses nothing: the record can be read back from it |
| DataExtractor.Squash | src/parser/data_extractor.py:11 | after removing spaces and turning commas into points, no space or comma is left and the text is no longer than before |
| DataExtractor.SquashAppend | src/parser/data_extractor.py:11 | the rewrite works character by character, so it distributes over concatenation |
| DataExtractor.SquashKeepsDigits | src/parser/data_extractor.py:11 | the rewrite neither removes nor adds digits |
| DataExtractor.SquashOfPlain | src/parser/data_extractor.py:11 | text with no space or comma is unchanged |
| DataExtractor.LexemeAt | src/parser/data_extractor.py:12 | the match of `\d+\.?\d*` at a digit is a prefix of the text with digits, an optional point and digits; it is maximal, so the next character is no digit, nor a point unless one was taken |
| DataExtractor.MatchNumber | src/parser/data_extractor.py:12 | the search finds nothing exactly when the text has no digit; a match has the decimal shape |
| DataExtractor.MatchNumberSkips | src/parser/data_extractor.py:12 | the search finds the same match after any digit-free prefix |
| DataExtractor.FractionValue | src/parser/data_extractor.py:13 | the digits after the point are worth less than 1 |
| DataExtractor.DecimalValue | src/parser/data_extractor.py:13 | `float` of a match lies between its integer part and the next whole number |
| DataExtractor.ExtractNumber | src/parser/data_extractor.py:8-13 | no number exactly when the text holds no digit (the empty text included); a number found is never negative |
| DataExtractor.ExtractNumberSkipsPrefix | src/parser/data_extractor.py:8-13 | a digit-free prefix does not change the number |
| DataExtractor.LexemeOfDecimal | src/parser/data_extractor.py:12 | digits, a point and digits followed by a non-digit are matched whole |
| DataExtractor.LexemeOfInteger | src/parser/data_extractor.py:12 | digits followed by neither a digit nor a point are matched whole |
| DataExtractor.DecimalValueOf | src/parser/data_extractor.py:13 | the value of "i.f" is the integer i plus the fraction f |
| DataExtractor.SquashOfDecimal | src/parser/data_extractor.py:11 | a decimal comma becomes a point and the digits around it stay |
| DataExtractor.ExtractNumberOfDecimal | src/parser/data_extractor.py:8-13 | the first number after a digit-free prefix, with a point or a comma, is read as integer part plus fraction |
| DataExtractor.ExtractNumberOfInteger | src/parser/data_extractor.py:8-13 | a whole number after a digit-free prefix is read as the integer it spells |
| DataExtractor.ExtractNumberIgnoresSpaces | src/parser/data_extractor.py:11-13 | spaces anywhere make no difference (so "1 234,5" is 1234.5) |
| DataExtractor.UpToPrefixIsInvisible | src/parser/data_extractor.py:19-22 | dropping a leading "до " changes neither the number nor the kilobit test |
| DataExtractor.ExtractSpeedMeaning | src/parser/data_extractor.py:16-27 | the speed is the number read from the text, divided by 1000 and rounded when a kilobit unit is named; a text that starts with "до " is read without that prefix |
| DataExtractor.IsKbpsSkips | src/parser/data_extractor.py:22 | digits and spaces in front of the unit do not change the kilobit test |
| DataExtractor.SpeedOfCount | src/parser/data_extractor.py:16-27 | for "N unit" the speed is N, or N/1000 rounded when the unit is a kilobit spelling |
| DataExtractor.SpeedOfPositive | src/parser/data_extractor.py:25-27 | a non-zero number gives a speed: rounded N/1000 for kilobits, N otherwise |
| DataExtractor.KilobitSpeedExample | src/parser/data_extractor.py:16-27 | "512 Кбит/с" gives 0.5: the capital letter does not hide the kilobit unit |
| DataExtractor.KbpsInAnyCase | src/parser/data_extractor.py:22 | a kilobit unit written in any mix of capital and small letters, anywhere in the text, marks the speed as kilobits |
| DataExtractor.MegabitIsNotKbps | src/parser/data_extractor.py:22 | "Мбит/с" does not name a kilobit unit |
| DataExtractor.CountAt | src/parser/data_extractor.py:35 | a bare-count match captures a non-empty digit run and ends inside the text |
| DataExtractor.ParenGroupAt | src/parser/data_extractor.py:34 | a parenthesised-count match captures a non-empty digit run and ends inside the text |
| DataExtractor.SearchNoneIff | src/parser/data_extractor.py:38 | `re.search` finds nothing exactly when the pattern matches at no position |
| DataExtractor.SearchSkips | src/parser/data_extractor.py:38 | positions where the pattern cannot match are skipped |
| DataExtractor.ExtractChannelsBySearch | src/parser/data_extractor.py:37-44 | no count exactly when both patterns, in turn, find nothing |
| DataExtractor.FirstPatternMatchNone | src/parser/data_extractor.py:37-44 | trying the patterns in order fails exactly when every one fails |
| DataExtractor.ParenGroupHasCount | src/parser/data_extractor.py:34-35 | every parenthesised count holds a bare count just inside the parenthesis |
| DataExtractor.ExtractChannelsNoneIff | src/parser/data_extractor.py:30-44 | no channel count exactly when no position of the text starts a bare "N каналов" |
| DataExtractor.ExtractChannelsWithoutDigits | src/parser/data_extractor.py:30-44 | a text without digits (the empty text included) has no channel count |
| DataExtractor.CountOfRendered | src/parser/data_extractor.py:35 | "N каналов" is a bare count capturing N |
| DataExtractor.ParenGroupOfRendered | src/parser/data_extractor.py:34 | "(N каналов)" is a parenthesised count capturing N, in either case mode |
| DataExtractor.ParenthesisedCountWins | src/parser/data_extractor.py:33-41 | "(N каналов)" gives N even when a bare count comes earlier in the text |
| DataExtractor.BareCountRead | src/parser/data_extractor.py:33-41 | without any parenthesis, the first bare "N каналов" gives N |
| TableParser.ParseInternetTable | src/parser/table_parser.py:16-35 | a table without `tbody` fails; otherwise the records are those of the rows, in order |
| TableParser.InternetRecordMeaning | src/parser/table_parser.py:20-32 | a row gives a record exactly when it has at least 4 cells, a visible name and a digit in the price cell; the record is named by the normalised, stripped cell 0 (so it has that cell's visible characters), has that price, no channels and the speed of cell 3 |
| TableParser.InternetRecordsLength | src/parser/table_parser.py:20-32 | never more records than rows |
| TableParser.InternetRecordsAppend | src/parser/table_parser.py:20-32 | rows are read one at a time, so the records of joined rows are the joined records |
| TableParser.InternetRecordsMembers | src/parser/table_parser.py:20-32 | a record is there exactly when some row gives it |
| TableParser.InternetRecordsValid | src/parser/table_parser.py:27 | every internet record has a name and a price |
| TableParser.FirstDigitRun | src/parser/table_parser.py:45 | the first `\d+` match is a non-empty digit run |
| TableParser.HeaderTierNoneIff | src/parser/table_parser.py:44-46 | a header has no tier exactly when it has no digit |
| TableParser.HeaderTierOf | src/parser/table_parser.py:44-46 | the tier of a header is the value of its first digit run |
| TableParser.RemovePlain | src/parser/table_parser.py:56 | `re.sub` copies text where no match starts |
| TableParser.RemoveSkips | src/parser/table_parser.py:56 | `re.sub` drops a match whole |
| TableParser.RemoveGroupsNoParen | src/parser/table_parser.py:56 | text without "(" is left as it is |
| TableParser.RemoveGroupsPlain | src/parser/table_parser.py:56 | a parenthesis-free stretch ending in a visible character is copied |
| TableParser.RemoveGroupsSkips | src/parser/table_parser.py:56 | a whitespace run followed by a channel group is removed together with it |
| TableParser.GroupEndAt | src/parser/table_parser.py:56 | the removal pattern matches from the start of the whitespace run up to the end of the group |
| TableParser.RemoveGroupsOfGroup | src/parser/table_parser.py:56 | " (N каналов)" followed by parenthesis-free text leaves only that text |
| TableParser.CleanNameOfCount | src/parser/table_parser.py:54-56 | the clean name of "name (N каналов) rest" is the stripped "name rest" |
| TableParser.ChannelsOfCount | src/parser/table_parser.py:54-55 | the channel count of "name (N каналов) rest" is N |
| TableParser.ParseComboTable | src/parser/table_parser.py:37-71 | a table without `thead` or `tbody` fails; otherwise the records are those of the rows in order, each row's in column order |
| TableParser.ComboRowTariffs | src/parser/table_parser.py:54-68 | the inner loop over the header tiers gives exactly the row's records |
| TableParser.ColumnStep | src/parser/table_parser.py:58-68 | column i adds one record when it is a price cell, has a tier and has a price; the record is named "clean + header suffix" |
| TableParser.ComboRecordsSnoc | src/parser/table_parser.py:49-68 | one more row adds that row's records at the end |
| TableParser.ColumnRecordMeaning | src/parser/table_parser.py:58-68 | a cell gives a record exactly when it is a price cell whose header and text both hold a digit; the record has the header's tier, the cell's price and the row's channel count |
| TableParser.RowRecordsLength | src/parser/table_parser.py:58-68 | a row gives at most one record per header tier and per price cell |
| TableParser.ComboRowRecordsLength | src/parser/table_parser.py:49-68 | an empty row gives nothing; otherwise there are no more records than price cells or columns |
| TableParser.ComboRowRecordsShared | src/parser/table_parser.py:54-68 | every record of a row has the row's channel count, a price, and the suffix |
| TableParser.ComboNameNotEmpty | src/parser/table_parser.py:62 | a combo name is never empty once normalised (it contains "+") |
| TableParser.TierlessColumnsIgnored | src/parser/table_parser.py:58-59 | cells under tier-less headers, and cells past the headers, do not affect the records |
| TableParser.ComboRowTierless | src/parser/table_parser.py:58-59 | two rows with the same name cell that agree on their tiered cells give the same records |
| TableParser.ComboRecordsAppend | src/parser/table_parser.py:49-68 | the records of joined rows are the joined records |
| TableParser.ComboRecordsValid | src/parser/table_parser.py:49-68 | every combo record has a name and a price, and ends in a whitespace-free suffix |
| SectionParser.ParseSection | src/parser/section_parser.py:17-40 | the method returns the section result: none for a missing section, the failures above, else internet records then combo records |
| SectionParser.SectionMissing | src/parser/section_parser.py:19-22 | a missing section gives no records and no failure |
| SectionParser.SuffixIsWord | src/parser/section_parser.py:36 | the suffix is empty for МКД; for private houses it is non-empty and free of whitespace |
| SectionParser.SectionRecordsValid | src/parser/section_parser.py:17-40 | every record of a section has a name and a price |
| SectionParser.SectionSuccess | src/parser/section_parser.py:24-40 | a successful section gives its internet records followed by its combo records |
| SectionParser.SectionComboSuffix | src/parser/section_parser.py:33-38 | every combo record of a section ends in the section's suffix |
| SectionParser.SectionOrder | src/parser/section_parser.py:24-40 | a successful section starts with its internet records, and everything after them carries the suffix |
| SectionParser.ExtractMkdChannelsMap | src/parser/section_parser.py:42-50 | the loop builds the map in which each tariff with a non-zero count, in order, writes that count under its base name |
| SectionParser.ChannelsMapKeys | src/parser/section_parser.py:44-49 | a key is present exactly when some tariff with a non-zero count has it as base name; every stored count is non-zero |
| SectionParser.ChannelsMapLastWins | src/parser/section_parser.py:44-49 | the count stored under a base name is that of the last tariff with that name |
| SectionParser.BaseNameWithoutMarker | src/parser/section_parser.py:48 | a name without the " + РиалКом Интернет" marker has its stripped self as base name |
| SectionParser.BaseNameOfCombo | src/parser/section_parser.py:48 | the base name of "package + РиалКом Интернет…" is the stripped package |
| TariffProcessor.Check | src/parser/tariff_processor.py:15-20 | no report exactly when a tariff is valid; a tariff without a name is reported whole, one without a price by its name; the name is checked first |
| TariffProcessor.ValidateTariffs | src/parser/tariff_processor.py:9-23 | the loop returns the kept tariffs and the reports, both in input order |
| TariffProcessor.ValidateCounts | src/parser/tariff_processor.py:9-23 | every tariff is kept or reported, and never both |
| TariffProcessor.KeptMembers | src/parser/tariff_processor.py:9-23 | a tariff is kept exactly when it is in the input and valid |
| TariffProcessor.ErrorsMembers | src/parser/tariff_processor.py:9-23 | a report is there exactly when some input tariff produces it |
| TariffProcessor.ValidateAppend | src/parser/tariff_processor.py:9-23 | validating joined lists gives the joined results, so the order of blocks is kept |
| TariffProcessor.ValidateAllValid | src/parser/tariff_processor.py:9-23 | an all-valid input is kept whole with no report |
| TariffProcessor.Summary | src/parser/tariff_processor.py:30-36 | difference is total minus expected; the percentage is within 0.05 of total/expected·100, or 0 when nothing is expected |
| TariffProcessor.GetStatistics | src/parser/tariff_processor.py:26-38 | the total is the number of tariffs and the expected count is the configured 106 |
| TariffProcessor.SummaryComplete | src/parser/tariff_processor.py:34-35 | as many as expected is exactly 100 percent with no difference |
| TariffProcessor.SummaryAtMostFull | src/parser/tariff_processor.py:35 | no more than expected stays between 0 and 100 percent |
| TariffProcessor.SummaryMonotone | src/parser/tariff_processor.py:35 | more tariffs never give a smaller percentage |
| RialcomParser.ParseAll | src/parser/parser.py:26-55 | the method returns: the fetch failure, else the first section failure, else the valid records of МКД then private houses |
| RialcomParser.FetchFailurePropagates | src/parser/parser.py:31 | a failed load is reported before any section is read |
| RialcomParser.ParseAllKeepsEverything | src/parser/parser.py:34-46 | a successful run has both sections successful and returns their records joined, all valid |
| RialcomParser.ParseAllReadsTwoSections | src/parser/parser.py:34-40 | the result depends only on the two sections "collapse1" and "collapse2" |
| RialcomParser.ParseAllOrder | src/parser/parser.py:34-43 | the МКД records come first, then the private internet records; everything after those carries "_ч" |
| LegacyParser.ExtractNumberOfStripped | src/parser.py:144-148 | stripping a cell before reading a number changes nothing |
| LegacyParser.ExtractSpeedOfStripped | src/parser.py:145-149 | stripping a cell before reading a speed changes nothing |
| LegacyParser.IsKbpsOfStripped | src/parser.py:77 | stripping does not change the kilobit test |
| LegacyParser.HeaderTierOfStripped | src/parser.py:192-200 | stripping a header does not change its tier |
| LegacyParser.LegacyExtractSpeedAgrees | src/parser.py:65-88 | the legacy speed reader (lower-casing before it drops "до ") gives the same speed as the refactored one |
| LegacyParser.StrippedInternetRow | src/parser.py:141-157 | a legacy internet row, read from stripped cells, gives the refactored row's record |
| LegacyParser.LegacyParseInternet | src/parser.py:113-164 | the loop gives the section's internet records, or none without the section, an "интернет" title, a table or a `tbody` (`parse_private_internet` is the same reader on "collapse2") |
| LegacyParser.LegacyInternetNeedsTitle | src/parser.py:119-134 | records come only from a section whose header is titled "интернет" and is followed by a table with a body |
| LegacyParser.LegacyComboRecordsSnoc | src/parser.py:206-234 | one more row adds that row's records at the end |
| LegacyParser.StrippedColumn | src/parser.py:218-234 | column i, with stripped cells and column name, adds the record of the refactored column step |
| LegacyParser.ColumnNames | src/parser.py:191-193 | one column name per header after the first |
| LegacyParser.Tiers | src/parser.py:195-200 | one tier per column name |
| LegacyParser.TiersAt | src/parser.py:195-200 | the tier of column k is the first digit run of its name |
| LegacyParser.LegacyColumns | src/parser.py:187-200 | the header loop gives the stripped column names and their tiers |
| LegacyParser.LegacyComboRow | src/parser.py:206-234 | the inner loop over name and tier pairs gives the row's records |
| LegacyParser.LegacyComboTable | src/parser.py:203-234 | the row loop gives the table's records, rows in order |
| LegacyParser.LegacyParseCombo | src/parser.py:167-240 | the method gives the section's combo records, or none without the section, the combo title, a table, a `thead` or a `tbody` (`parse_private_combo` is the same reader with "_ч" and the map) |
| LegacyParser.LegacyComboNeedsTitle | src/parser.py:173-184 | combo records come only from a section whose header is titled "интернет + интерактивное тв" and is followed by a table with `thead` and `tbody` |
| LegacyParser.OwnCellIsRefactored | src/parser.py:206-234 | the legacy МКД combo rows give exactly the refactored combo records |
| LegacyParser.MatchingMapIsRefactored | src/parser.py:325-352 | with a map that gives each private row the count its own cell states, the legacy private combo records are the refactored ones |
| LegacyParser.PrivateRowChannels | src/parser.py:330-352 | every private combo record of a row has the count the map holds for the row's clean name, a price and a name |
| LegacyParser.LegacyComboRecordsValid | src/parser.py:218-233 | every legacy combo record is valid |
| LegacyParser.LegacyChannelsMap | src/parser.py:378-382 | the loop builds the map in which every МКД combo record, in order, writes its count (absent included) under its base name |
| LegacyParser.LegacyMapKeys | src/parser.py:378-382 | a key is there exactly when some МКД combo record has it as base name |
| LegacyParser.LegacyMapLastWins | src/parser.py:378-382 | the value under a base name is that of the last record with it |
| LegacyParser.LegacyParseAll | src/parser.py:361-392 | the method returns the fetch failure, or МКД internet, МКД combo, private internet, private combo records in that order |
| LegacyParser.LegacyRecordsValid | src/parser.py:361-392 | every legacy record is valid, so validation would keep them all |
| LegacyParser.InternetValid | src/parser.py:151-157 | every legacy internet record is valid |
| LegacyParser.ComboValid | src/parser.py:218-234 | every legacy combo record is valid |
| LegacyParser.MkdAgrees | src/parser.py:113-240 | for a well-formed МКД section, the refactored section result is the legacy internet records then the legacy combo records |
| LegacyParser.PrivateAgrees | src/parser.py:243-358 | for a well-formed private section, the refactored result starts with the legacy internet records, and with a matching map it is legacy internet then legacy combo |
| LegacyParser.LegacyAgreesWithRefactored | src/parser.py:361-392 | on well-formed pages where the МКД map gives each private row the count of its own cell, both parsers return the same records |

## Left out

- Loading the page is not modelled. This covers `HtmlFetcher` and `Parser.fetch_page`: HTTP, encoding detection and the timeout. Its outcome is a parameter, either the parsed page or the failure reason.
- HTML parsing and BeautifulSoup are not modelled. A page is its sections by `id`, each with its first internet and first combo header `div` and the table after it. A table is its header texts and its rows of cell texts, already stripped of markup.
- Logging is not modelled: `logger` calls, log messages and the section name used only in messages.
- The Excel export (`src/excel_exporter.py`) and `main.py` (exit codes) are not part of this model. The export row itself is modelled as `TariffModel.ToDict`.
- Floating point is not modelled. Numbers are exact reals, and `round(x, 1)` is floor(10x + 1/2)/10. IEEE rounding and round-half-to-even on binary values are not captured.
- Character classes are fixed sets and not Python's Unicode classes:
  - `\d` is the ASCII digits;
  - `\s` and `strip()` use space, tab, line feed, carriage return, vertical tab, form feed and no-break space;
  - `lower()` and `re.IGNORECASE` cover ASCII and the basic Cyrillic alphabet with Ё.
- DataExtractor.ExtractNumber: `float` of a `\d+\.?\d*` match always parses (a very long one becomes infinity, and floating point is not modelled), so its failure path is not modelled.
- DataExtractor.ExtractChannels: does not model the `ValueError` that `int` raises on CPython 3.11 and later for a digit string longer than 4300 digits (src/parser/data_extractor.py:40-43). For such a count the source moves on to the next pattern, and gives `None` if that one fails too, while the model returns the count.
- Error reports are structured values (`NoName(tariff)`, `NoPrice(name)`), not the formatted Russian messages.
- `Parser._extract_channels` has the same text as `DataExtractor.extract_channels`, so it is modelled once, as `DataExtractor.ExtractChannels`.
- The legacy reader pairs are each a single member:
  - the legacy internet readers are one method with the section `id` as parameter;
  - the two legacy combo readers are one method with a `ChannelSource` parameter: the row's own cell for МКД, or the МКД map for private houses.
- Legacy `except Exception` blocks are not modelled in full: any exception inside the `try` gives no records. A missing `tbody` or `thead` is the only one the modelled data can raise.
- RialcomParser.ParseAll: the channel map and the statistics are computed as in the source but not returned, because the source only logs them. The map is never passed to a section reader.
- TableParser.ParseComboTable: its per-row inner loop is the separate method `ComboRowTariffs`. The behaviour is unchanged.
- TableParser.Remove: the scan tests that a match ends past its start. The removal pattern always consumes at least "(", so the test never changes the result.
