# Bússola ETL for SEAP bulletins — a Dafny model

This project models the core of `SEAPBulletin`. That class reads the daily custody-count bulletin of the Rio de Janeiro
State Secretariat of Penitentiary Administration (SEAP). It then normalises the bulletin into five tables and exports
them: to a CSV or JSON file, to an Anvil Data Table, or to a MongoDB collection.

Modelled:

- the sheet as a sequence of rows, each row a map from column to cell (text, number, date or missing);
- how the bulletin date is set from a user value, an ISO text, or the `DD/MM/20YY` stamp in header row 4;
- `_parse_count`, step by step:
  - the section classifier driven by the three subtotal markers;
  - the forward fill;
  - the numeric-id filter;
  - the strips;
  - the two regex passes over the facility name;
  - the regime map;
  - the split into `facilities`, `capacity`, `imprisoned` and `imprisoned_detail`, with `dropna` and
    `drop_duplicates`;
- the `occupation` join;
- the output-path logic of `to_file`;
- the per-record existence-policy loops of `to_anvil` and `to_mongo`, over abstract stores.

The Anvil table is a `seq` of rows: `force` adds a row again. The Mongo collection is a `map` from `_id` to document.

Modules, one per file:

| module | file | models |
|---|---|---|
| `Wrappers` | `wrappers.dfy` | result types and the error taxonomy |
| `Strings` | `strings.dfy` | `str.strip`, integer text, `zfill`, `re.sub` of a literal |
| `Dates` | `dates.dfy` | `date.isoformat`/`fromisoformat`, the header date search and `strptime` |
| `Table` | `table.dfy` | rows, projection, `dropna`, `drop_duplicates`, `to_numeric` |
| `Regimes` | `regimes.dfy` | `_parse_regimes` |
| `Sections` | `sections.dfy` | `_info_from_subtotals` |
| `NamePatterns` | `names.dfy` | `_info_from_name` and its two pattern sets |
| `Normalize` | `normalize.dfy` | `_parse_count` |
| `Occupancy` | `occupancy.dfy` | `_get_occupation` |
| `Bulletin` | `bulletin.dfy` | `__init__`, `_parse_date` |
| `OutputFile` | `output.dfy` | `to_file` |
| `Export` | `export.dfy` | `to_anvil`, `to_mongo` |

Two behaviours of the uploads that the model keeps as the code has them:

- Under the `fail` policy, `to_anvil` and `to_mongo` raise at the first record that already exists, and every
  record before it has been written by then.
- Under `force`, `to_anvil` adds a second row with the same hash; the first row stays.

## Model

| member | source | states |
|---|---|---|
| Strings.Strip | bussola_etl_seap/bussola_etl_seap.py:182-184 | the result is a contiguous slice of the input that neither starts nor ends with whitespace, and only whitespace was removed around it |
| Strings.StripTrailing | bussola_etl_seap/bussola_etl_seap.py:207-209 | stripping a text that ends in whitespace after a trimmed name gives back exactly that name |
| Strings.StripIdempotent | bussola_etl_seap/bussola_etl_seap.py:207-209 | the second strip of `_parse_count` changes nothing that the first one stripped |
| Strings.ShowNatValue | bussola_etl_seap/bussola_etl_seap.py:377 | `str(n)` reads back as `n` |
| Strings.ZFillShowNat | bussola_etl_seap/bussola_etl_seap.py:382-388 | `str(n).zfill(w)` is all digits, reads back as `n`, and has exactly `w` characters when `n` fits |
| Strings.ParseShowInt | bussola_etl_seap/bussola_etl_seap.py:174-177 | `to_numeric` reads the decimal text of any integer back as that integer |
| Strings.ReplaceAllAbsent | bussola_etl_seap/bussola_etl_seap.py:375-389 | `re.sub` of a literal that does not occur leaves the text unchanged |
| Strings.ReplaceAllFirst | bussola_etl_seap/bussola_etl_seap.py:375-389 | `re.sub` replaces the first occurrence and continues after it |
| Dates.FromIsoFormat | bussola_etl_seap/bussola_etl_seap.py:93-94 | `fromisoformat` yields only calendar-valid dates, and otherwise fails with the format error |
| Dates.IsoRoundTrip | bussola_etl_seap/bussola_etl_seap.py:93-94 | `fromisoformat(d.isoformat()) == d` for every valid date |
| Dates.IsoCanonical | bussola_etl_seap/bussola_etl_seap.py:93-94 | every text `fromisoformat` accepts is the ISO form of the date it yields |
| Dates.FindStamp | bussola_etl_seap/bussola_etl_seap.py:148-150 | `re.search` finds the leftmost `[0-3][0-9]/[0-1][0-9]/20[1-2][0-9]` stamp, or reports that none exists |
| Dates.StampTextRead | bussola_etl_seap/bussola_etl_seap.py:148-151 | the stamp printed for a date in 2010-2029 matches the pattern, and `strptime` reads it back as that date |
| Dates.ParseHeaderDate | bussola_etl_seap/bussola_etl_seap.py:140-153 | a parsed date is valid and in 2010-2029; it fails with "not found" exactly when no stamp occurs, and otherwise with the format error |
| Dates.HeaderDateIsFirstStamp | bussola_etl_seap/bussola_etl_seap.py:148-151 | a parsed date is the one written in the first stamp of the statement |
| Dates.HeaderDateFound | bussola_etl_seap/bussola_etl_seap.py:140-153 | a statement whose first stamp is a date's `DD/MM/YYYY` text parses to that date, whatever text surrounds the stamp |
| Strings.DollarEnd | bussola_etl_seap/bussola_etl_seap.py:366-370 | `$` matches at the end of the text, or just before a line break that ends it |
| Dates.HeaderDateExample | bussola_etl_seap/bussola_etl_seap.py:140-153 | "em 11/08/2020" parses to 11 August 2020 |
| Table.Project | bussola_etl_seap/bussola_etl_seap.py:219-225 | `loc[:, cols]` yields a row over exactly those columns |
| Table.DropNa | bussola_etl_seap/bussola_etl_seap.py:228-230 | `dropna` keeps exactly the rows that have no missing cell |
| Table.DropDuplicates | bussola_etl_seap/bussola_etl_seap.py:228-230 | `drop_duplicates` keeps the same set of rows, each once |
| Table.DropDuplicatesOrder | bussola_etl_seap/bussola_etl_seap.py:228-230 | `drop_duplicates` keeps the rows in the order of their first occurrence |
| Table.ToNumericShown | bussola_etl_seap/bussola_etl_seap.py:174-177 | an integer, given as a number or as its text, is kept as that integer |
| Regimes.ParseRegime | bussola_etl_seap/bussola_etl_seap.py:310-317 | the result is always a standard regime; a mapped value gives its mapping, and anything else gives "Não Informado" |
| Regimes.KnownRegimes | bussola_etl_seap/bussola_etl_seap.py:65-71 | each of the five raw regimes maps to its standard name |
| Regimes.UnknownRegimes | bussola_etl_seap/bussola_etl_seap.py:310-317 | near misses, numbers and missing cells give "Não Informado" |
| Sections.FindMarker | bussola_etl_seap/bussola_etl_seap.py:246-254 | the first row whose id cell is the marker, or proof that no row is |
| Sections.Subtotals | bussola_etl_seap/bussola_etl_seap.py:239-281 | fails exactly when one of the three markers is missing; otherwise keeps the number of rows |
| Sections.ClassifySections | bussola_etl_seap/bussola_etl_seap.py:260-278 | with the markers in order, rows before the female marker are male, of unknown type. Rows from it up to the shelter marker are female, of unknown type. Rows from the shelter marker up to the hospital marker are shelters, and rows from then on are hospitals. From the shelter marker on, an empty gender becomes "Não Informado" and a given one is kept. No other column changes |
| Sections.SheetGenderAfterShelter | bussola_etl_seap/bussola_etl_seap.py:268-278 | a sheet row, which has no gender column, at or after the shelter marker ends with gender "Não Informado" |
| Sections.SubtotalsAtMarkers | bussola_etl_seap/bussola_etl_seap.py:246-281 | `_info_from_subtotals` classifies the sheet at the positions of its first marker rows |
| Sections.WriteRange | bussola_etl_seap/bussola_etl_seap.py:261-273 | one `loc[range, col] = v` writes `v` in that column of exactly the rows in range |
| Sections.ClassifySheet | bussola_etl_seap/bussola_etl_seap.py:256-281 | the in-place range writes leave the table equal to the classification |
| Sections.InfoFromSubtotals | bussola_etl_seap/bussola_etl_seap.py:239-281 | the method agrees with `Subtotals`, error cases included |
| NamePatterns.LastSuffix | bussola_etl_seap/bussola_etl_seap.py:190-191 | the greedy `.*` stops at the last position where the gender suffix matches |
| NamePatterns.MatchSuffix | bussola_etl_seap/bussola_etl_seap.py:190-191 | the gender pattern matches exactly when some position holds a separator and the suffix word runs from it to where `$` matches; the captured name is the one-line text before the last such separator |
| NamePatterns.MatchAbbreviation | bussola_etl_seap/bussola_etl_seap.py:202-203 | a match captures the dash-free text before the first dash as the name and capitals as the sigla; no dash means no match |
| NamePatterns.AbbreviationShapeMatches | bussola_etl_seap/bussola_etl_seap.py:202-203 | every text made of a dash-free name, a dash, spaces, capitals and separators up to where `$` matches is matched; with the longest run of spaces, the name and capitals are the groups |
| NamePatterns.AbbreviationMatchShape | bussola_etl_seap/bussola_etl_seap.py:202-203 | every match is a text of that shape, with the longest run of spaces, and captures its name and capitals: with the lemma before, the pattern matches exactly the texts of that shape |
| NamePatterns.Groups | bussola_etl_seap/bussola_etl_seap.py:296-305 | the gender pattern captures only the name; the abbreviation pattern captures the name and the sigla |
| NamePatterns.ApplyRules | bussola_etl_seap/bussola_etl_seap.py:283-308 | no match leaves the row unchanged; otherwise the first matching pattern sets the category and the captured groups |
| NamePatterns.InfoFromName | bussola_etl_seap/bussola_etl_seap.py:283-308 | the loop with `break` agrees with `ApplyRules` |
| NamePatterns.SuffixMatches | bussola_etl_seap/bussola_etl_seap.py:190-191 | a one-line name followed by a separator and a gender word without line breaks yields that name |
| NamePatterns.SuffixFails | bussola_etl_seap/bussola_etl_seap.py:190-191 | a last word, after the last separator and without line breaks, that is not a gender word gives no match at any position |
| NamePatterns.AbbreviationMatches | bussola_etl_seap/bussola_etl_seap.py:202-203 | name, dash, spaces, capitals and trailing separators split into exactly that name and sigla |
| NamePatterns.GenderPassFemale | bussola_etl_seap/bussola_etl_seap.py:186-195 | "… FEM" becomes a female facility, and the suffix is cut from the name |
| NamePatterns.GenderPassNone | bussola_etl_seap/bussola_etl_seap.py:186-195 | a name whose last word, after the last separator, matches neither `FEM[INO]*` nor `MASC[ULINO]*` in any case is left alone |
| NamePatterns.AbbreviationPassSplit | bussola_etl_seap/bussola_etl_seap.py:198-205 | "name - SIGLA" sets the name and the sigla, and nothing else |
| NamePatterns.TalaveraBruce | bussola_etl_seap/bussola_etl_seap.py:186-209 | "Presídio Talavera Bruce - FEM" becomes female, named "Presídio Talavera Bruce", with an empty sigla |
| NamePatterns.VicentePiragibe | bussola_etl_seap/bussola_etl_seap.py:186-209 | "Instituto Penal Vicente Piragibe - IPVP" keeps its gender and splits into the name and sigla "IPVP" |
| Normalize.LastValue | bussola_etl_seap/bussola_etl_seap.py:167-171 | the last non-missing value of a column, or proof that the column is all missing |
| Normalize.FillDown | bussola_etl_seap/bussola_etl_seap.py:167-171 | `ffill` keeps the number of rows |
| Normalize.FillDownPrefix | bussola_etl_seap/bussola_etl_seap.py:167-171 | filling a prefix gives the prefix of the filled table: the fill only looks upwards |
| Normalize.FillDownNearest | bussola_etl_seap/bussola_etl_seap.py:167-171 | in the id and facility columns, a present cell stays, and a missing one takes the nearest present value above it or stays missing when there is none; other columns are untouched |
| Normalize.ForwardFill | bussola_etl_seap/bussola_etl_seap.py:167-171 | the row-by-row loop agrees with `FillDown` |
| Normalize.NumericIdRows | bussola_etl_seap/bussola_etl_seap.py:174-178 | exactly the rows whose id converts to a number survive, with the numeric id |
| Normalize.NumericIdRowsConcat | bussola_etl_seap/bussola_etl_seap.py:178 | the id filter keeps the order of the rows |
| Normalize.KeptNames | bussola_etl_seap/bussola_etl_seap.py:174-184 | a name the id filter keeps is not text exactly when some row with an integer id has a name that is not text |
| Normalize.TrimColumn | bussola_etl_seap/bussola_etl_seap.py:207-209 | every cell of the column is replaced by its strip; other columns are unchanged |
| Normalize.StripColumn | bussola_etl_seap/bussola_etl_seap.py:182-184 | the strip fails exactly when some name is not text; otherwise it trims every name |
| Normalize.ApplyRulesKeeps | bussola_etl_seap/bussola_etl_seap.py:283-308 | `_info_from_name` writes no column other than the captured groups and the category |
| Normalize.ApplyRulesText | bussola_etl_seap/bussola_etl_seap.py:296-305 | a text column stays text through `_info_from_name` |
| Normalize.StandardRegimes | bussola_etl_seap/bussola_etl_seap.py:212-214 | every regime becomes standard, and no other column changes |
| Normalize.NumericRows | bussola_etl_seap/bussola_etl_seap.py:166-178 | after the sigla column, the fill and the id filter, every id is a number and every sigla is "" |
| Normalize.NamePasses | bussola_etl_seap/bussola_etl_seap.py:186-205 | the two name passes keep the ids and leave the sigla as text |
| Normalize.Parsed | bussola_etl_seap/bussola_etl_seap.py:161-216 | a missing marker raises the marker error; with the markers, it fails exactly when, after the forward fill, some row with an integer id has a name that is not text; otherwise every id is numeric, name and sigla are trimmed, and regimes are standard |
| Normalize.Prepared | bussola_etl_seap/bussola_etl_seap.py:166-184 | up to the first strip: fails exactly when, after the forward fill, some row with an integer id has a name that is not text; otherwise names and sigla are text and ids are numeric |
| Normalize.NameSteps | bussola_etl_seap/bussola_etl_seap.py:186-216 | the name passes, the second strip and the regime map leave the rows well parsed |
| Normalize.Cleaned | bussola_etl_seap/bussola_etl_seap.py:219-230 | `loc[:, cols].dropna().drop_duplicates()` holds exactly the complete projections of the parsed rows, each once |
| Normalize.Partition | bussola_etl_seap/bussola_etl_seap.py:217-237 | three tables are the complete, de-duplicated projections of the parsed rows; `imprisoned` keeps one projection per parsed row, in order |
| Normalize.Normalize | bussola_etl_seap/bussola_etl_seap.py:155-237 | `_parse_count` succeeds exactly when the parse before the split succeeds |
| Normalize.ParseCount | bussola_etl_seap/bussola_etl_seap.py:155-237 | the reassignment sequence agrees with `Normalize` |
| Normalize.PrepareRows | bussola_etl_seap/bussola_etl_seap.py:161-184 | the first reassignments of `parsed` agree with `Prepared` |
| Normalize.ApplyNameSteps | bussola_etl_seap/bussola_etl_seap.py:186-216 | the later reassignments of `parsed` agree with `NameSteps` |
| Occupancy.GroupSums | bussola_etl_seap/bussola_etl_seap.py:322-323 | `groupby(id).sum()` has a key for exactly the ids present |
| Occupancy.GroupSumsTotal | bussola_etl_seap/bussola_etl_seap.py:322-323 | each group's sum is the total of that id's counts over the table |
| Occupancy.Join | bussola_etl_seap/bussola_etl_seap.py:327-332 | the inner join keeps exactly the facilities that have both sums, with their name, sigla and sums |
| Occupancy.JoinConcat | bussola_etl_seap/bussola_etl_seap.py:327-332 | the join keeps the order of `facilities` |
| Occupancy.JoinUnique | bussola_etl_seap/bussola_etl_seap.py:327-332 | joining facilities with unique ids gives rows with unique ids |
| Occupancy.Occupation | bussola_etl_seap/bussola_etl_seap.py:319-341 | fails exactly on a count that is not a number or a repeated facility id (`validate='1:1'`); otherwise at most one row per facility, with unique ids, over the five output columns |
| Occupancy.OccupationRows | bussola_etl_seap/bussola_etl_seap.py:319-341 | every occupation row carries a facility's id, name and sigla and the totals of its capacity and head count |
| Occupancy.OccupationCoverage | bussola_etl_seap/bussola_etl_seap.py:321-332 | a facility appears exactly when its id has both capacity and detail rows |
| Bulletin.HeaderStatement | bussola_etl_seap/bussola_etl_seap.py:146 | the statement is the text of header row 4; a missing row and a non-text cell fail differently |
| Bulletin.ResolveDate | bussola_etl_seap/bussola_etl_seap.py:89-100 | a given datetime is kept; an ISO text succeeds exactly when `fromisoformat` does and then prints back; with no date, the first header stamp gives the date |
| Bulletin.DataRows | bussola_etl_seap/bussola_etl_seap.py:104 | `loc[8:, :]` drops the first eight rows |
| Bulletin.NewBulletin | bussola_etl_seap/bussola_etl_seap.py:79-108 | the bulletin exists exactly when the date, `_parse_count` and `_get_occupation` succeed, and then it holds their results; otherwise the first error is raised |
| Bulletin.TableNamed | bussola_etl_seap/bussola_etl_seap.py:393 | exactly the five table names resolve; any other name raises the key error |
| Bulletin.HeaderDateResolved | bussola_etl_seap/bussola_etl_seap.py:96-100 | a sheet whose header reads "em 11/08/2020" is dated 11 August 2020 |
| Bulletin.IsoDateResolved | bussola_etl_seap/bussola_etl_seap.py:93-95 | an ISO date given by the user is the bulletin date |
| OutputFile.SplitExtension | bussola_etl_seap/bussola_etl_seap.py:366-370 | the name splits exactly when it has a dot followed by one or more letters (the ASCII letters and the four `re.IGNORECASE` adds) up to where `$` matches, with no line break before the dot; the base and extension are the parts around that dot |
| OutputFile.SplitExtensionJoin | bussola_etl_seap/bussola_etl_seap.py:366-370 | `base.ext` splits back into `base` and `ext` |
| OutputFile.SplitExtensionNewline | bussola_etl_seap/bussola_etl_seap.py:366-370 | `base.ext` followed by a line break splits into `base` and `ext`, the line break dropped |
| OutputFile.SplitAsWritten | bussola_etl_seap/bussola_etl_seap.py:365-373 | as written, a name without an extension raises instead of falling back |
| OutputFile.SplitOrDefault | bussola_etl_seap/bussola_etl_seap.py:365-373 | the intended fallback: the whole name with the `csv` format |
| OutputFile.NoExtensionFallback | bussola_etl_seap/bussola_etl_seap.py:365-373 | a name without a dot raises as written, and falls back to csv as intended |
| OutputFile.PlaceholdersFilled | bussola_etl_seap/bussola_etl_seap.py:375-389 | `[YYYY]`, `[MM]` and `[DD]` become the year and the two-digit month and day |
| OutputFile.PlaceholdersAbsent | bussola_etl_seap/bussola_etl_seap.py:375-389 | a base path without placeholders is left unchanged |
| OutputFile.DateStampAsWritten | bussola_etl_seap/bussola_etl_seap.py:397 | `self.date.date()` succeeds exactly when the bulletin date carries a time |
| OutputFile.DateStamp | bussola_etl_seap/bussola_etl_seap.py:397 | the intended date column value is the bulletin's calendar date |
| OutputFile.WithDateColumn | bussola_etl_seap/bussola_etl_seap.py:394-397 | with a date column, every row gets that date in it, replacing any value it held, and keeps every other column; without one, the table is unchanged |
| OutputFile.FormatOf | bussola_etl_seap/bussola_etl_seap.py:403-422 | exactly `csv` and `json` are exported; any other extension raises, after the file was opened |
| OutputFile.Export | bussola_etl_seap/bussola_etl_seap.py:350-424 | an unknown table raises; otherwise it succeeds exactly when the extension is `csv` or `json`, and then the path is the filled base, `_`, the table name and the extension, the format follows the extension, and the table is the named table with the date column set |
| OutputFile.ToFile | bussola_etl_seap/bussola_etl_seap.py:350-424 | the method agrees with `Export` |
| OutputFile.ExportAsWritten | bussola_etl_seap/bussola_etl_seap.py:365-397 | as written: no extension raises, and otherwise it agrees with `Export` whenever no date column is asked or the date carries a time |
| OutputFile.IsoDateExport | bussola_etl_seap/bussola_etl_seap.py:93-95 | an ISO-dated bulletin exported with a date column raises as written, and exports as intended |
| OutputFile.ExportDatedName | bussola_etl_seap/bussola_etl_seap.py:375-402 | a name with the three placeholders and a csv/json extension gives the dated path and that format |
| OutputFile.UnsupportedExtension | bussola_etl_seap/bussola_etl_seap.py:418-422 | any other extension raises, naming the path that was opened |
| Export.CountHasKey | bussola_etl_seap/bussola_etl_seap.py:483 | `get` finds a row exactly when some row holds the hash |
| Export.HasKeyConcat | bussola_etl_seap/bussola_etl_seap.py:483 | a hash is in two tables together exactly when it is in one of them |
| Export.DistinctCount | bussola_etl_seap/bussola_etl_seap.py:483 | with unique hashes, at most one row matches |
| Export.AnvilGet | bussola_etl_seap/bussola_etl_seap.py:483 | `get` raises exactly when several rows match, and otherwise reports whether one does |
| Export.AnvilGetFinds | bussola_etl_seap/bussola_etl_seap.py:483 | `get` reports a row exactly when the hash is present, and never raises on a table with unique hashes |
| Export.AnvilActionCases | bussola_etl_seap/bussola_etl_seap.py:483-507 | a new hash is added under every policy; a present one raises under `fail`, is skipped under `ignore`, is added again under `force`, and raises under any other policy |
| Export.AnvilKeepsRows | bussola_etl_seap/bussola_etl_seap.py:480-507 | the loop only appends: the rows already in the table stay, and a raised warning stays raised |
| Export.AnvilAppendsAll | bussola_etl_seap/bussola_etl_seap.py:480-507 | a `fail` or `force` run that completes has appended every record in order; a `fail` run that completes adds no warning |
| Export.AnvilAppendsUntil | bussola_etl_seap/bussola_etl_seap.py:484-492 | a `fail` or `force` run that raises does so at some record, with exactly the records before it written |
| Export.AnvilIgnore | bussola_etl_seap/bussola_etl_seap.py:480-507 | under `ignore`: the run passes, hashes stay unique, every record's hash ends up present, only records are added, and it warns exactly when some record's hash was already present |
| Export.AnvilAllPresent | bussola_etl_seap/bussola_etl_seap.py:493-498 | under `ignore`, records whose hashes are all present change nothing and warn |
| Export.AnvilIgnoreRerun | bussola_etl_seap/bussola_etl_seap.py:480-507 | re-running an `ignore` upload changes nothing: it is idempotent |
| Export.AnvilWarnAsWritten | bussola_etl_seap/bussola_etl_seap.py:499-501 | the loop as written ends and writes like the corrected one, and warns whenever the corrected one does |
| Export.AnvilAsWrittenWarns | bussola_etl_seap/bussola_etl_seap.py:499-501 | as written, every passing run over at least one record warns, duplicates or not |
| Export.AnvilWarnOnInsert | bussola_etl_seap/bussola_etl_seap.py:499-514 | one new record in an empty table warns as written, and does not warn once corrected |
| Export.AnvilRecords | bussola_etl_seap/bussola_etl_seap.py:440-445 | one record per table row, with the date and hash columns set |
| Export.ToAnvil | bussola_etl_seap/bussola_etl_seap.py:426-516 | an unknown table raises; otherwise the upload runs over the table's records, each stamped with the bulletin's calendar date |
| Export.ToAnvilAsWritten | bussola_etl_seap/bussola_etl_seap.py:439-443 | as written: an unknown table raises, then an ISO-dated bulletin raises at `self.date.date()`; with a datetime it agrees with `ToAnvil` |
| Export.IsoDateToAnvil | bussola_etl_seap/bussola_etl_seap.py:443 | an ISO-dated bulletin cannot be uploaded to Anvil as written; the intended upload succeeds and stamps its date on every record |
| Export.AnvilTable.Handle | bussola_etl_seap/bussola_etl_seap.py:483-507 | one loop step: the action of the policy, whether the hash existed, and a row appended exactly on insert |
| Export.AnvilTable.Upload | bussola_etl_seap/bussola_etl_seap.py:480-514 | the loop over the table leaves the outcome, rows and warning of `AnvilRun` |
| Export.MongoAction | bussola_etl_seap/bussola_etl_seap.py:557-581 | a new `_id` is inserted; a present one raises under `fail`, is replaced under `update`, is skipped under `ignore`, and raises under any other policy |
| Export.Inserted | bussola_etl_seap/bussola_etl_seap.py:581 | inserting records adds exactly their `_id`s to the collection's keys |
| Export.MongoFailAll | bussola_etl_seap/bussola_etl_seap.py:558-568 | a `fail` run that completes has inserted every record |
| Export.MongoFailUntil | bussola_etl_seap/bussola_etl_seap.py:558-568 | a `fail` run that raises does so at a record whose `_id` is present, with the records before it inserted |
| Export.MongoUpdate | bussola_etl_seap/bussola_etl_seap.py:569-570 | with a filter, an `update` run passes and writes every record over the collection in order, a later record replacing the document of its `_id` |
| Export.MongoIgnore | bussola_etl_seap/bussola_etl_seap.py:571-572 | an `ignore` run passes and ends holding every record's `_id`; existing documents are kept |
| Export.MongoIgnoreFirst | bussola_etl_seap/bussola_etl_seap.py:571-581 | under `ignore`, a new `_id` holds the first record that carried it |
| Export.MongoAllPresent | bussola_etl_seap/bussola_etl_seap.py:571-572 | records whose `_id`s are all present change nothing and warn |
| Export.MongoIgnoreRerun | bussola_etl_seap/bussola_etl_seap.py:554-581 | re-running an `ignore` upload changes nothing: it is idempotent |
| Export.MongoUpdateMissingFilter | bussola_etl_seap/bussola_etl_seap.py:569-570 | as written, `update` on a present `_id` raises; the corrected call replaces the document |
| Export.MongoUnknownPolicy | bussola_etl_seap/bussola_etl_seap.py:573-578 | as written, an unknown policy inserts a new record silently; the corrected check refuses it at once |
| Export.MongoRecords | bussola_etl_seap/bussola_etl_seap.py:533-542 | one document per row, with the date, the source and an `_id` hashed from id, date and source |
| Export.MongoIdByFacility | bussola_etl_seap/bussola_etl_seap.py:539-542 | two rows of the same facility get the same `_id` |
| Export.MongoIgnoreSameId | bussola_etl_seap/bussola_etl_seap.py:571-581 | under `ignore`, of two records with one new `_id` the later never reaches the collection |
| Export.MongoFacilityCollision | bussola_etl_seap/bussola_etl_seap.py:539-581 | under `ignore`, a second row of a facility is not inserted: its `_id` holds an earlier row |
| Export.ToMongo | bussola_etl_seap/bussola_etl_seap.py:518-592 | an unknown table raises; otherwise the upload runs over the table's documents |
| Export.MongoCollection.FindOne | bussola_etl_seap/bussola_etl_seap.py:557 | `find_one` reports exactly whether the `_id` is present |
| Export.MongoCollection.Upload | bussola_etl_seap/bussola_etl_seap.py:554-588 | the loop over the collection leaves the outcome, documents and warning of `MongoRun` |

## Left out

- Reading the workbook (`_read_bulletin`, `pd.read_excel`): the model starts from the sheet as a sequence of rows.
  The column mapping and the positions of the labels become the row order.
- `from_sharepoint`, logging, the CLI, and the file write of `to_file`. `to_file` returns the path, format and
  table it would write, with `set_index` for CSV left out.
- The Anvil connection, its token lookup and the `app_tables` attribute check. The MongoDB client, its server
  timeout and `ServerSelectionTimeoutError`. The stores are a sequence of rows and a map of documents.
- `_get_row_hash` (SHA-256 of the JSON form of a row): it is a function parameter.
- `Export.MongoRecords`: does not model that BSON cannot encode the `datetime.date` that an ISO date string
  yields; the date column holds the bulletin's calendar date either way.
- Floating-point numbers: `to_numeric` is modelled for integer text and numbers. `astype(int)` is the identity
  on those integers. `groupby().sum()` over a text count is modelled as an error, because pandas would
  concatenate the text.
- `Dates.FromIsoFormat`: accepts only the `YYYY-MM-DD` form.
- `Dates.ParseHeaderDate`: `strptime` is checked against calendar validity only.
- Regular expressions are not interpreted in general. The two name patterns and the extension pattern are
  matched by hand-written matchers, one per pattern.
- `NamePatterns.MatchSuffix`: `re.IGNORECASE` folds ASCII letters only. Python also matches 'ı' and 'İ' to
  `I`, 'ſ' to `S` and the Kelvin sign to `K`; a gender word spelled with one of those is not recognised.
- `Sections.Subtotals`: does not model the pandas `fillna(inplace=True)` on a `.loc` copy possibly having no
  effect. The fill of unknown gender is taken to apply.
- `.copy()`: pandas copy semantics and index labels. Tables are immutable values.
- `Occupancy.Occupation`: the first merge's `validate="1:1"` never fails after `groupby`, so it is not a separate
  error.

## Findings

| source | as written | input that shows it | evidently intended | confidence | as-written member | corrected member |
|---|---|---|---|---|---|---|
| bussola_etl_seap/bussola_etl_seap.py:365-373 | `re.match(...)` returns `None` for a name without an extension, so `.group` raises `AttributeError`; `except ValueError` never catches it | output file `report` | fall back to the whole name and the `csv` format | high, not executed | OutputFile.SplitAsWritten, OutputFile.NoExtensionFallback | OutputFile.SplitOrDefault |
| bussola_etl_seap/bussola_etl_seap.py:397 | `self.date.date()` assumes a `datetime`, but an ISO string date is a `date`, which has no `.date()` | date `"2020-08-11"` and `to_file(..., date_col="data")` | write the bulletin's calendar date | high, not executed | OutputFile.ExportAsWritten, OutputFile.IsoDateExport | OutputFile.Export, OutputFile.DateStamp |
| bussola_etl_seap/bussola_etl_seap.py:443 | `to_anvil` stamps `self.date.date()` unconditionally, and an ISO string date is a `date`, which has no `.date()` | date `"2020-08-11"` and any `to_anvil` call naming an existing table | upload the records stamped with the bulletin's calendar date | high, not executed | Export.ToAnvilAsWritten, Export.IsoDateToAnvil | Export.ToAnvil |
| bussola_etl_seap/bussola_etl_seap.py:499-501 | every insert sets `warn_duplicates`, so the duplicates warning is logged after any upload that adds a row | an empty table and one new record | warn only when a record already existed | high, not executed | Export.AnvilFoldAsWritten, Export.AnvilAsWrittenWarns, Export.AnvilWarnOnInsert | Export.AnvilRun, Export.AnvilIgnore, Export.AnvilAppendsAll |
| bussola_etl_seap/bussola_etl_seap.py:569-570 | `update_one(record)` passes no update document, so it raises `TypeError` | `exist_policy='update'` and a record whose `_id` is present | replace the document with that `_id` | high, not executed | Export.MongoRunAsWritten, Export.MongoUpdateMissingFilter | Export.MongoRun, Export.MongoUpdate |
| bussola_etl_seap/bussola_etl_seap.py:573-578 | an unknown policy is reported only when a duplicate is met, so new records are inserted under it | `exist_policy='replace'` and a new record | refuse an unknown policy before writing | medium, not executed | Export.MongoRunAsWritten, Export.MongoUnknownPolicy | Export.MongoRun |
