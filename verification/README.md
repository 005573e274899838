# ACS pipeline, header tool and logger: a Dafny model

This project models four parts of the AUDT data repository (augmented urban data triangulation):

- **The ACS table helpers** (`AcsHelpers`, `acs_helpers.dfy`):
  - `parse_md` turns the census variable metadata into a table with one row per `Estimate` variable. Each row has `desc_1`, `desc_2`, ... columns cut from the `!!`-separated label, and the table is sorted by variable code.
  - `parse_acs` turns a raw census table into integer columns indexed by the census tract taken from `GEO_ID`.
  - `combine_acs_years` stamps each year's table with its year and stacks the tables.
  - `verify_acs_data` reports the expected columns that are missing.
- **The ACS batch driver** (`BatchPp`, `batch_pp.dfy`):
  - `extract_acs_metadata` reads the year and identifier from a file name `acs<yyyy>_<id>.json`.
  - `process_acs_file` writes each file as a metadata CSV or, using its sidecar metadata, as a processed data CSV.
  - `batch_process_acs` runs over every `acs*.json` file in the raw directory and reports how many succeeded.
- **The header tool** (`CheckHeaders`, `check_headers.dfy`):
  - `has_header` recognises the project header.
  - `generate_description`, `generate_short_title`, `get_repo_name` and `get_author` compute the header fields.
  - `add_header` prepends the header, keeping a shell script's shebang line.
  - `main` walks the tree and adds headers.
- **The logger helpers** (`Logger`, `logger.dfy`):
  - `get_module_name`.
  - The `COLORS` table of the colourful formatter.
  - `add_logging_level` and the `SUCCESS` registration in `setup_logger`.

The Python library behaviour these files rely on is written out in four shared modules:

- `Strings`: `str.split`, `count`, `join`, `replace`, `find`, `strip`, `lower`, `capitalize`, `int()`, `str()` and string ordering.
- `Paths`: `os.path.basename`, `dirname` and `join`, and pathlib's `suffix` and `stem`.
- `Json`: a decoded JSON value, with dicts as ordered key/value lists.
- `Wrappers`: `Option` and `Result`.

Where the source raises an exception, the model returns a `Failure` or `None` that names the cause. State that the source changes in place is a class:

- the output directory of the batch driver is `BatchPp.OutputDir`;
- the working tree that the header tool rewrites is `CheckHeaders.Workspace`;
- the `logging` module's registries are `Logger.LoggingModule`.

The loops of the source are methods. Each is proved equal to a specification function, and the properties are proved about those functions:

- the `desc_i` loop of `parse_md`;
- the year loop of `combine_acs_years`;
- the batch loop;
- the walk and the processing loop of `main`.

Some points where the model follows the code rather than the intent its documentation suggests:

- `parse_md` fails when every label contains `!!`, because the column `desc_1` is then never created and the `Estimate` filter raises `KeyError`.
- `verify_acs_data` raises when the table has no `GEOID` or no `year` column, because its logging reads both.
- The batch driver prints the year back with `str(int(...))`, so `acs0123_x.json` is written as `acs123_x_...csv`. A year of `0000` is rejected as falsy.
- `add_header` lowers the extension before every lookup. The `.R` template and the `.R` branch of `generate_description` are therefore never used: R files get the default header and a "Code related to" description.
- `get_module_name` removes every `.py` in the module path, including one in the middle of a name.
- `main` decides with `has_header` as written. The tree it leaves is therefore what the as-written test gives, including the repeated header of the one case under Findings; the lemmas marked "with the corrected test" are about the intended test.

## Model

| member | source | states |
|---|---|---|
| AcsHelpers.Variables | d01_data/acs/helpers.py:25-27 | reading `md['variables']` with its labels succeeds exactly when the metadata is a dict whose non-empty `variables` dict holds dicts with a string `label` |
| AcsHelpers.ReadVariables | d01_data/acs/helpers.py:25-27 | one variable per entry, in order, with its code, fields and label text; fails exactly when some entry lacks a string label |
| AcsHelpers.MinMaxOf | d01_data/acs/helpers.py:32-33 | the least and greatest separator counts are bounds that occur among the counts |
| AcsHelpers.SepsAt | d01_data/acs/helpers.py:32 | each row's count is the number of `!!` in its label |
| AcsHelpers.DropFields | d01_data/acs/helpers.py:41-43 | a field is kept exactly when it was present and is not one of the dropped bookkeeping columns |
| AcsHelpers.Estimates | d01_data/acs/helpers.py:46-47 | a row is kept exactly when it was present and its `desc_1` is `Estimate` |
| AcsHelpers.Insert | d01_data/acs/helpers.py:50 | inserting into a list sorted by code keeps it sorted and adds exactly that row |
| AcsHelpers.SortByColumn | d01_data/acs/helpers.py:50 | the result is sorted by code and a permutation of the input |
| AcsHelpers.MetadataOf | d01_data/acs/helpers.py:32-53 | fails only with the `KeyError` on `desc_1`; otherwise at least one `desc` column, rows sorted by code, no more rows than variables, every row an `Estimate` |
| AcsHelpers.ParseMetadata | d01_data/acs/helpers.py:14-55 | a result is only produced from well-formed metadata, sorted by code and holding only `Estimate` rows |
| AcsHelpers.AddDesc | d01_data/acs/helpers.py:35-38 | adding `desc_i` appends to every row the i-th `!!`-segment of its label, or `None` when the label is shorter |
| AcsHelpers.AddDescStep | d01_data/acs/helpers.py:35-38 | one turn of the column loop extends each row's `desc` columns by the next one |
| AcsHelpers.DropColumns | d01_data/acs/helpers.py:41-43 | each row keeps its code, its non-dropped fields and its `desc` columns |
| AcsHelpers.ParseMd | d01_data/acs/helpers.py:14-55 | the loop that builds the frame column by column yields exactly the specification `ParseMetadata` |
| AcsHelpers.DescOneCreated | d01_data/acs/helpers.py:32-38 | column `desc_1` exists, so the filter does not raise, exactly when some label has no `!!` |
| AcsHelpers.ParseMetadataSucceeds | d01_data/acs/helpers.py:14-55 | `parse_md` returns exactly for well-formed metadata in which some label has no `!!` |
| AcsHelpers.ParseMetadataRows | d01_data/acs/helpers.py:35-53 | the result has `desc_1` to `desc_(max count + 1)` and is sorted by code; it holds exactly the `Estimate` rows among the variables, each as often as among them |
| AcsHelpers.MdRowOfColumns | d01_data/acs/helpers.py:35-43 | `desc_i` of a row is the i-th label segment when the label has that many, otherwise `None`; the dropped fields are gone and the others are kept |
| AcsHelpers.NonEstimatesDropped | d01_data/acs/helpers.py:46-47 | a row whose `desc_1` is not `Estimate` never appears in the result |
| AcsHelpers.SameElements | d01_data/acs/helpers.py:50 | sorting keeps the length and the members |
| AcsHelpers.PositionsFrom | d01_data/acs/helpers.py:59-61 | the positions from a point on whose header cell has the name, in increasing order, and no others |
| AcsHelpers.Positions | d01_data/acs/helpers.py:59-61 | every header position with the name, and none exactly when the name is not in the header |
| AcsHelpers.TractOf | d01_data/acs/helpers.py:61 | `split('US')[1]` exists exactly when the `GEO_ID` is text holding `US` |
| AcsHelpers.MissingKeyOf | d01_data/acs/helpers.py:64 | the `KeyError` of the selection names the first key of `cols` that is no column (`tract_id` is the index by then); none exactly when every key is a column |
| AcsHelpers.KeptOf | d01_data/acs/helpers.py:64-65 | one entry of `cols` keeps a column per header cell carrying its key, under its new name |
| AcsHelpers.Selected | d01_data/acs/helpers.py:64-65 | every kept column sits under a header cell named by its key, a key of `cols` other than `tract_id`, and carries that key's new name |
| AcsHelpers.SelectedKeepsAll | d01_data/acs/helpers.py:64-65 | every column named by a key of `cols` is kept, also when the name repeats, under that key's new name |
| AcsHelpers.SelectedDistinct | d01_data/acs/helpers.py:64-65 | when each key names exactly one column, the kept columns are those, one per key, in the order of `cols` |
| AcsHelpers.Pick | d01_data/acs/helpers.py:64 | the kept cells of a row line up with the kept columns |
| AcsHelpers.CastCell | d01_data/acs/helpers.py:67 | a cell casts exactly when it is text that `int()` reads and the value fits in int64, and then to that value; a failure names the column |
| AcsHelpers.CastCells | d01_data/acs/helpers.py:67 | `astype(int)` on a row succeeds exactly when every cell reads as an int64 integer, and gives those integers |
| AcsHelpers.CastRows | d01_data/acs/helpers.py:61-67 | every data row is kept, in order, with its tract and its cast cells; fails exactly when some cell does not cast |
| AcsHelpers.PickedCells | d01_data/acs/helpers.py:64-65 | the cell under kept column m of data row k is the row's cell at that column's position |
| AcsHelpers.CastAllRows | d01_data/acs/helpers.py:67 | casting every data row succeeds exactly when every kept cell of every row is an int64 integer |
| AcsHelpers.ParseAcs | d01_data/acs/helpers.py:57-68 | a parsed table has one row per data row, each with one value per column |
| AcsHelpers.ParseAcsSucceeds | d01_data/acs/helpers.py:57-68 | `parse_acs` returns exactly when: the table is non-empty; the header names `GEO_ID` exactly once; some `GEO_ID` holds `US`; every key of `cols` is a column; every kept cell is an int64 integer |
| AcsHelpers.ParseAcsRows | d01_data/acs/helpers.py:57-68 | on success: the columns are the kept columns under their new names; every data row appears, in order, with the tract of its `GEO_ID`; each value is the integer of the row's cell in that column |
| AcsHelpers.ParseAcsDistinct | d01_data/acs/helpers.py:57-68 | with each key naming one column, the columns are exactly the values of `cols` and each value is the integer of its key's cell |
| AcsHelpers.RepeatedGeoIdFails | d01_data/acs/helpers.py:61 | a header naming `GEO_ID` twice makes `parse_acs` raise |
| AcsHelpers.SplitAtFirst | d01_data/acs/helpers.py:61 | a `US`-free text followed by `US` splits into that text, then the pieces of the rest |
| AcsHelpers.NoSeparatorAtStart | d01_data/acs/helpers.py:61 | a non-empty `US`-free text cannot run into a following `US` |
| AcsHelpers.TractAfterUs | d01_data/acs/helpers.py:61 | for `GEO_ID` = a + `US` + b with neither part holding `US`, the tract is b |
| AcsHelpers.TractExample | d01_data/acs/helpers.py:61 | the tract of `0500000US36061` is `36061` |
| AcsHelpers.SetYear | d01_data/acs/helpers.py:112 | `df['year'] = year` leaves a `year` column, the same rows and the same tracts |
| AcsHelpers.SetYearStamps | d01_data/acs/helpers.py:112 | every row holds the year under `year` and keeps every other value |
| AcsHelpers.Stamp | d01_data/acs/helpers.py:110-118 | stamping keeps one flat row per table row |
| AcsHelpers.ConcatSnoc | d01_data/acs/helpers.py:118 | concatenating one more frame appends its rows |
| AcsHelpers.CombineAcsYears | d01_data/acs/helpers.py:97-118 | the loop over the year range gives the concatenation of the stamped tables of the years present |
| AcsHelpers.CombinedLength | d01_data/acs/helpers.py:97-118 | the stacked table has as many rows as the tables of the present years together |
| AcsHelpers.CombineNothingPresent | d01_data/acs/helpers.py:114-116 | with no year of the range in the dictionary, the result is empty |
| AcsHelpers.CombinedRowsStamped | d01_data/acs/helpers.py:107-118 | every stacked row has a `year` column holding a year that is both in the range and in the dictionary |
| AcsHelpers.Missing | d01_data/acs/helpers.py:196 | a name is reported missing exactly when it is expected and not a column |
| AcsHelpers.VerifyAcsData | d01_data/acs/helpers.py:180-210 | raises exactly when `GEOID` or `year` is absent; otherwise reports the missing friendly names, and `True` exactly when none is missing |
| BatchPp.LineEnd | audt_data/d03_src/pp/acs/batch_pp.py:30 | the end of the line that `.` cannot cross |
| BatchPp.LastOccurrence | audt_data/d03_src/pp/acs/batch_pp.py:30 | the last place `.json` occurs, or none at all |
| BatchPp.ExtractAcsMetadata | audt_data/d03_src/pp/acs/batch_pp.py:23-36 | a parsed identifier is never empty |
| BatchPp.ExtractAcsMetadataSpec | audt_data/d03_src/pp/acs/batch_pp.py:23-36 | the name parses exactly when the start-anchored pattern matches its basename; the year is the value of the four digits; the identifier runs up to the last `.json` a match can end at |
| BatchPp.MatchWithinLine | audt_data/d03_src/pp/acs/batch_pp.py:30 | a match ends inside the first line after the prefix |
| BatchPp.LastOccurrenceAtEnd | audt_data/d03_src/pp/acs/batch_pp.py:30 | a `.json` that ends the name is the last one |
| BatchPp.ExtractRoundTrip | audt_data/d03_src/pp/acs/batch_pp.py:23-36 | `acs` + four digits + `_` + id + `.json` gives back the digits' value and the id |
| BatchPp.OutputStem | audt_data/d03_src/pp/acs/batch_pp.py:99-150 | the stem is `acs`, the year's digits, `_` and the identifier; the digits read back as the year |
| BatchPp.Sidecar | audt_data/d03_src/pp/acs/batch_pp.py:108-124 | the `_md.json` sidecar is chosen when present, otherwise `_metadata.json`; there is none exactly when neither exists |
| BatchPp.ColumnMap | audt_data/d03_src/pp/acs/batch_pp.py:133-134 | one renaming per metadata row |
| BatchPp.ReadRow | audt_data/d03_src/pp/acs/batch_pp.py:137 | a row of strings and nulls is read cell for cell |
| BatchPp.ReadRows | audt_data/d03_src/pp/acs/batch_pp.py:137 | one read row per JSON row |
| BatchPp.ReadTable | audt_data/d03_src/pp/acs/batch_pp.py:137 | a table is read only from a JSON list, with one row per item |
| BatchPp.ReadableFile | audt_data/d03_src/pp/acs/batch_pp.py:41-89 | a file passes the early checks only with a parsed name, a non-zero year, non-blank text and valid JSON; a rejection is one of the five early errors |
| BatchPp.DataOutcome | audt_data/d03_src/pp/acs/batch_pp.py:106-166 | a data file yields a processed table only with a sidecar and a readable table; its failures are never the early or the key-test ones |
| BatchPp.FileOutcome | audt_data/d03_src/pp/acs/batch_pp.py:38-172 | a file is written only after passing the early checks, under an `acs` name; it is a metadata file exactly when the document has `variables` |
| BatchPp.ReadRawFile | audt_data/d03_src/pp/acs/batch_pp.py:41-89 | the early checks (name, year, existence, size, blank text, JSON) give exactly `ReadableFile` |
| BatchPp.ProcessDataFile | audt_data/d03_src/pp/acs/batch_pp.py:106-166 | the data branch gives exactly `DataOutcome` |
| BatchPp.ProcessAcsFile | audt_data/d03_src/pp/acs/batch_pp.py:38-172 | returns `True` exactly when the file's outcome is a success; the output directory gains exactly that outcome's file |
| BatchPp.AcsFiles | audt_data/d03_src/pp/acs/batch_pp.py:197 | the glob keeps at most the listed names |
| BatchPp.AcsFilesMembers | audt_data/d03_src/pp/acs/batch_pp.py:197 | a name matches `acs*.json` exactly when it starts with `acs` and ends with `.json` (the two may not overlap) |
| BatchPp.Outcomes | audt_data/d03_src/pp/acs/batch_pp.py:206-209 | one outcome per file |
| BatchPp.OutcomesAt | audt_data/d03_src/pp/acs/batch_pp.py:206-209 | the k-th outcome is that of the k-th file |
| BatchPp.ProcessNext | audt_data/d03_src/pp/acs/batch_pp.py:207-209 | one turn of the loop processes the i-th file as its outcome says |
| BatchPp.BatchProcessAcs | audt_data/d03_src/pp/acs/batch_pp.py:174-216 | does nothing without a repository root or matching files; otherwise processes every file in turn and reports (successes, files) |
| BatchPp.SuccessesBounded | audt_data/d03_src/pp/acs/batch_pp.py:206-216 | the success count is at most the file count, and equal to it exactly when every outcome succeeded |
| BatchPp.AllProcessed | audt_data/d03_src/pp/acs/batch_pp.py:206-216 | the report shows every file processed exactly when every file succeeds |
| BatchPp.WrittenAllOverride | audt_data/d03_src/pp/acs/batch_pp.py:206-209 | the batch overwrites the output directory with the files it produces |
| BatchPp.BatchRerunUnchanged | audt_data/d03_src/pp/acs/batch_pp.py:174-216 | running the batch again over the same input leaves the output directory as it is |
| BatchPp.OutputsFromSuccesses | audt_data/d03_src/pp/acs/batch_pp.py:206-209 | every output file was there before or was produced by a file that succeeded |
| BatchPp.EarlyRejections | audt_data/d03_src/pp/acs/batch_pp.py:41-89 | a bad name, year 0, a missing, empty or blank file, or invalid JSON fails with one of the early errors |
| BatchPp.YearZeroParses | audt_data/d03_src/pp/acs/batch_pp.py:23-36 | `acs0000_<id>.json` matches the pattern with year 0 |
| BatchPp.YearZeroRejected | audt_data/d03_src/pp/acs/batch_pp.py:41-43 | a year-0 file is rejected whatever the directory holds |
| BatchPp.OutputNames | audt_data/d03_src/pp/acs/batch_pp.py:92-150 | a document with `variables` is written as `acs<year>_<id>_metadata.csv` holding the parsed metadata; any other as `acs<year>_<id>_processed.csv` |
| BatchPp.DataFileOutput | audt_data/d03_src/pp/acs/batch_pp.py:106-150 | a data file succeeds only with a parsable sidecar that has `desc_2`; the table keeps the columns the codes select, renamed from `c` to `c_<desc_2>`, and holds the year under `year` in every row |
| CheckHeaders.HasHeader | audt_data/d03_src/utils/check_headers.py:79-95 | every pattern is anchored at the start, so a header starts the file; a `.sh` header needs `#!/bin/bash` first |
| CheckHeaders.ShHeaderSpec | audt_data/d03_src/utils/check_headers.py:83-85 | the `.sh` check holds exactly when `#!/bin/bash` is followed by whitespace up to a newline that the marker follows |
| CheckHeaders.SpaceRunEnd | audt_data/d03_src/utils/check_headers.py:84 | the end of a whitespace run: every character before it is whitespace and the one at it is not |
| CheckHeaders.WordRunEnd | audt_data/d03_src/utils/check_headers.py:101-102 | the end of a run of word characters |
| CheckHeaders.FindAll | audt_data/d03_src/utils/check_headers.py:101-102 | every captured name is a non-empty run of word characters |
| CheckHeaders.FindAllSingle | audt_data/d03_src/utils/check_headers.py:101-102 | `kw name` yields exactly `[name]` |
| CheckHeaders.FindAllSound | audt_data/d03_src/utils/check_headers.py:101-102 | every name found is the capture of a match: the keyword, whitespace, and the longest run of word characters after it |
| CheckHeaders.SpaceRunEndAt | audt_data/d03_src/utils/check_headers.py:101-102 | the whitespace run ends at the first character that is not whitespace |
| CheckHeaders.WordRunEndAt | audt_data/d03_src/utils/check_headers.py:101-102 | the word run ends at the first character that is not a word character |
| CheckHeaders.FindAllComplete | audt_data/d03_src/utils/check_headers.py:101-102 | a match anywhere after the scan's start makes it find at least one name |
| CheckHeaders.FindAllEmpty | audt_data/d03_src/utils/check_headers.py:101-102 | nothing is found exactly when the text holds no keyword followed by whitespace and a word character |
| CheckHeaders.PyDescription | audt_data/d03_src/utils/check_headers.py:100-109 | every `.py` description ends with the file's words |
| CheckHeaders.PyDescriptionKind | audt_data/d03_src/utils/check_headers.py:100-109 | a `.py` description opens with exactly one of four leads: "Script for" iff `main` is defined; then "Module containing" iff there are classes; then "Module with functions for" iff there are functions; otherwise "Code related to" |
| CheckHeaders.LeadOnly | audt_data/d03_src/utils/check_headers.py:104-124 | a text opening with one description lead opens with no other |
| CheckHeaders.GenerateDescription | audt_data/d03_src/utils/check_headers.py:98-124 | every description except the JavaScript/TypeScript ones ends with the file's words |
| CheckHeaders.DefaultDescription | audt_data/d03_src/utils/check_headers.py:123-124 | a file of no known kind is "Code related to" its words |
| CheckHeaders.CapitalizeAll | audt_data/d03_src/utils/check_headers.py:128 | every word is capitalised, one for one |
| CheckHeaders.LowerCapitalize | audt_data/d03_src/utils/check_headers.py:128 | capitalising changes only letter case |
| CheckHeaders.LowerJoinCapitalized | audt_data/d03_src/utils/check_headers.py:128 | joining capitalised words is the joined words up to case |
| CheckHeaders.ShortTitle | audt_data/d03_src/utils/check_headers.py:127-128 | the short title is the file's words up to case, as long, and cased character by character as `TitleChars` says: `_` a space, each word's first letter upper-cased, the others lower-cased |
| CheckHeaders.TitleChars | audt_data/d03_src/utils/check_headers.py:128 | the character-level reading of the title: each position holds the title character of the stem's character there |
| CheckHeaders.TitleOfSplit | audt_data/d03_src/utils/check_headers.py:128 | capitalising the words of `split('_')` and joining them with spaces gives exactly the character-level title |
| CheckHeaders.TitleOfSplitFrom | audt_data/d03_src/utils/check_headers.py:128 | the same from a word's start and from inside a word, by induction on the stem |
| CheckHeaders.ShortTitleCase | audt_data/d03_src/utils/check_headers.py:127-128 | for every path: each `_` of the stem is a space; every other character is the stem's up to case, not lower-case when it starts a word and not upper-case otherwise |
| CheckHeaders.Render | audt_data/d03_src/utils/check_headers.py:209-217 | every template carries the repository name, title, description and authors, each in its own brackets |
| CheckHeaders.FieldLineContains | audt_data/d03_src/utils/check_headers.py:22-76 | a field line holds the bracketed value |
| CheckHeaders.FieldInHeader | audt_data/d03_src/utils/check_headers.py:22-76 | what the field lines hold, the header holds |
| CheckHeaders.BasenameAfterSlash | audt_data/d03_src/utils/check_headers.py:152 | the base name of `dir/name` is `name` |
| CheckHeaders.RepoNameFromUrl | audt_data/d03_src/utils/check_headers.py:150-155 | the origin URL `.../<name>.git` or `.../<name>` names the repository `<name>` |
| CheckHeaders.RepoName | audt_data/d03_src/utils/check_headers.py:144-158 | the repository name is a single path component: it holds no `/` |
| CheckHeaders.SplitFirstPiece | audt_data/d03_src/utils/check_headers.py:181 | `email.split('@')[0]` is the text before the first `@` |
| CheckHeaders.GithubAuthor | audt_data/d03_src/utils/check_headers.py:175-184 | an author with a `@github` address is given as `name (@user)` |
| CheckHeaders.OtherAuthor | audt_data/d03_src/utils/check_headers.py:175-186 | any other author is given by name alone; an unnamed author is "Unknown" |
| CheckHeaders.Author | audt_data/d03_src/utils/check_headers.py:161-189 | the author is never empty, and starts with the committer's name when there is one |
| CheckHeaders.ExtOf | audt_data/d03_src/utils/check_headers.py:196 | the lowered extension is never `.R` |
| CheckHeaders.FirstLine | audt_data/d03_src/utils/check_headers.py:221-222 | the first line holds no newline; with a newline, line + newline + rest is the content; otherwise the rest is empty |
| CheckHeaders.FirstLineOf | audt_data/d03_src/utils/check_headers.py:221-222 | a newline-free line followed by a newline is the first line |
| CheckHeaders.NewContent | audt_data/d03_src/utils/check_headers.py:219-227 | the new text is no shorter; a kept shebang line stays first, otherwise the old text follows the header unchanged |
| CheckHeaders.MarkerOpensProject | audt_data/d03_src/utils/check_headers.py:22-76 | the project line starts with the marker the checks look for |
| CheckHeaders.BannerStartsWithMarker | audt_data/d03_src/utils/check_headers.py:22-76 | a `# `-prefixed template starts with the marker |
| CheckHeaders.ShBodyStartsWithMarker | audt_data/d03_src/utils/check_headers.py:223 | the `.sh` header without its `#!/bin/bash` line starts with the marker |
| CheckHeaders.ReplaceKeepsMarker | audt_data/d03_src/utils/check_headers.py:223 | removing `#!/bin/bash` lines keeps a leading marker |
| CheckHeaders.ShebangHeaderOf | audt_data/d03_src/utils/check_headers.py:220-223 | a shebang line followed by the marker is the header shape `add_header` writes into such a file |
| CheckHeaders.DelimitedHeader | audt_data/d03_src/utils/check_headers.py:80-82 | a text opening with a three-character delimiter and later holding the closing one matches `^open.*?close` |
| CheckHeaders.BannerContains | audt_data/d03_src/utils/check_headers.py:22-76 | what the closing text of a template holds, the header holds |
| CheckHeaders.PyHeaderFound | audt_data/d03_src/utils/check_headers.py:80-82 | the `.py` header is recognised whatever follows it |
| CheckHeaders.DocHeaderFound | audt_data/d03_src/utils/check_headers.py:86-88 | the `.js`/`.ts` header is recognised whatever follows it |
| CheckHeaders.ShHeaderFound | audt_data/d03_src/utils/check_headers.py:83-85 | the `.sh` header is recognised whatever follows it |
| CheckHeaders.RHeaderFound | audt_data/d03_src/utils/check_headers.py:89-91 | the `.R` header is recognised whatever follows it |
| CheckHeaders.DefaultHeaderFound | audt_data/d03_src/utils/check_headers.py:92-95 | the default header is recognised whatever follows it |
| CheckHeaders.ShebangKeptHeaderFound | audt_data/d03_src/utils/check_headers.py:220-227 | a `.sh` file that kept its shebang line has the header right after it |
| CheckHeaders.KeptLineHeader | audt_data/d03_src/utils/check_headers.py:220-227 | a kept `#!/` line followed by a marker-led header has the header shape |
| CheckHeaders.HeaderPresent | audt_data/d03_src/utils/check_headers.py:198-199 | the corrected test differs from `has_header` only on `.sh` files that start with a shebang |
| CheckHeaders.AddHeaderIdempotent | audt_data/d03_src/utils/check_headers.py:192-229 | after `add_header` writes a header, the corrected check finds it, whatever the file held |
| CheckHeaders.ShebangHeaderMissed | audt_data/d03_src/utils/check_headers.py:83-85 | as written, a `#!/bin/sh` file has no header before or after `add_header`, but the corrected check finds the added one |
| CheckHeaders.ShLineFirst | audt_data/d03_src/utils/check_headers.py:220-221 | a `#!/bin/sh` file starts with a shebang that is not `#!/bin/bash`; that line is its first |
| CheckHeaders.ShLineKept | audt_data/d03_src/utils/check_headers.py:220-227 | such a file still does not start with `#!/bin/bash` after `add_header` |
| CheckHeaders.KeptFirstLine | audt_data/d03_src/utils/check_headers.py:220-227 | the written text is the first line, a newline, the header without `#!/bin/bash` lines, then the rest |
| CheckHeaders.AnnotatedLonger | audt_data/d03_src/utils/check_headers.py:219-227 | writing a header always makes the file longer |
| CheckHeaders.AddHeaderStep | audt_data/d03_src/utils/check_headers.py:192-229 | one call keeps the set of files; it fails exactly when the file is missing, and changes nothing unless it reports a header added |
| CheckHeaders.AddHeaderStepSpec | audt_data/d03_src/utils/check_headers.py:192-229 | after one call, with the test as written or corrected, the file has a header and no other file has changed; `False` exactly when the test finds a header, and exactly when nothing changed |
| CheckHeaders.AddHeaderTwice | audt_data/d03_src/utils/check_headers.py:198-199 | with the corrected test (see Findings), a second call reports the header and changes nothing |
| CheckHeaders.ShebangStepRepeats | audt_data/d03_src/utils/check_headers.py:198-199 | as written, a second call on a `#!/bin/sh` file reports a header added and rewrites the file again |
| CheckHeaders.NamesUnder | audt_data/d03_src/utils/check_headers.py:251-253 | at most one path per file name |
| CheckHeaders.NamesUnderSupported | audt_data/d03_src/utils/check_headers.py:251-253 | every path collected from a directory has a supported extension |
| CheckHeaders.JoinedSupported | audt_data/d03_src/utils/check_headers.py:253 | joining a directory keeps the extension |
| CheckHeaders.WalkPaths | audt_data/d03_src/utils/check_headers.py:246-253 | every path the walk collects has a supported extension |
| CheckHeaders.Excluded | audt_data/d03_src/utils/check_headers.py:237-239 | `README.md` and every name given after `--exclude` are excluded |
| CheckHeaders.RunFrom | audt_data/d03_src/utils/check_headers.py:267-275 | the loop keeps the set of files, and adds no more headers than there are paths |
| CheckHeaders.RunKeepsHeaders | audt_data/d03_src/utils/check_headers.py:267-275 | a file in which the test finds a header is left exactly as it is by the rest of the run |
| CheckHeaders.StepKeepsHeader | audt_data/d03_src/utils/check_headers.py:198-199 | one call leaves a file in which the test finds a header as it is |
| CheckHeaders.StepOtherFile | audt_data/d03_src/utils/check_headers.py:192-229 | one call changes no file but its own |
| CheckHeaders.RunKeepsPresent | audt_data/d03_src/utils/check_headers.py:267-275 | a file that has a header still has one after the rest of the run |
| CheckHeaders.RunLeavesHeaders | audt_data/d03_src/utils/check_headers.py:267-275 | after a complete run, with either test, every path that was not excluded holds a file with a header |
| CheckHeaders.RunOverHeaders | audt_data/d03_src/utils/check_headers.py:267-275 | a run over files in which the test finds every header adds none and changes nothing |
| CheckHeaders.RerunAddsNothing | audt_data/d03_src/utils/check_headers.py:231-277 | with the corrected test (see Findings), running the tool a second time adds no header and changes no file |
| CheckHeaders.ShebangRerunAddsAgain | audt_data/d03_src/utils/check_headers.py:231-277 | as written, running the tool again over a `#!/bin/sh` file adds its header once more |
| CheckHeaders.Workspace.constructor | audt_data/d03_src/utils/check_headers.py:193-194 | the working tree starts as given |
| CheckHeaders.Workspace.AddHeader | audt_data/d03_src/utils/check_headers.py:192-229 | the file is rewritten and the result reported exactly as `AddHeaderStep` with the `has_header` test as written says |
| CheckHeaders.Workspace.Run | audt_data/d03_src/utils/check_headers.py:231-277 | the tree ends as the loop over the command-line or walked paths, with `has_header` as written, leaves it; the report is (paths, headers added), or none when a file cannot be opened |
| CheckHeaders.Workspace.RunNext | audt_data/d03_src/utils/check_headers.py:268-275 | one pass of the loop advances the run by one path, or stops it |
| CheckHeaders.CollectPaths | audt_data/d03_src/utils/check_headers.py:246-253 | the walk loop collects exactly `WalkPaths` |
| CheckHeaders.CollectNames | audt_data/d03_src/utils/check_headers.py:251-253 | the inner loop collects exactly `NamesUnder` |
| Logger.GetModuleName | audt_data/d03_src/utils/logger.py:89-106 | a value that is not a string comes back unchanged, as `None` |
| Logger.ProjectDirHasAudt | audt_data/d03_src/utils/logger.py:100-102 | a name holding `audt/` holds `audt` |
| Logger.SplitHasSecondPiece | audt_data/d03_src/utils/logger.py:102-103 | the split has a second piece exactly when the name holds `audt/` |
| Logger.ModuleNameSpec | audt_data/d03_src/utils/logger.py:100-106 | a name holding `audt/` becomes a dotted name starting `audt.` with no `/`; the name is returned unchanged exactly when it holds no `audt/` |
| Logger.MainNameFromCaller | audt_data/d03_src/utils/logger.py:94-98 | `__main__` is named after the caller's file |
| Logger.StyleFor | audt_data/d03_src/utils/logger.py:18-25 | no level is styled with attributes |
| Logger.FormatRecord | audt_data/d03_src/utils/logger.py:27-34 | a formatted record keeps its message text |
| Logger.FormatKnownLevels | audt_data/d03_src/utils/logger.py:18-34 | formatting succeeds exactly for the six styled levels; `ERROR` and `CRITICAL` are red; `SUCCESS` is green |
| Logger.MethodName | audt_data/d03_src/utils/logger.py:63-64 | a given non-empty method name is used as it is; otherwise the method name is the level name lowered |
| Logger.Guard | audt_data/d03_src/utils/logger.py:66-73 | registration is allowed exactly when the level name and the method name are free on the module, and the method name on the logger class |
| Logger.RegisteredThenBlocked | audt_data/d03_src/utils/logger.py:66-86 | once a level is registered, the same level name is refused |
| Logger.LoggingModule.constructor | audt_data/d03_src/utils/logger.py:79-86 | the registries start as given |
| Logger.LoggingModule.AddLoggingLevel | audt_data/d03_src/utils/logger.py:37-86 | the error is the first failing guard, and a refused call changes nothing; otherwise the level is named, its constant bound, and the method added to module and class |
| Logger.LoggingModule.EnsureSuccessLevel | audt_data/d03_src/utils/logger.py:131-134 | afterwards `SUCCESS` is registered or blocked; a blocked call changes nothing; otherwise `SUCCESS` = 25 is registered |
| Paths.Basename | audt_data/d03_src/utils/check_headers.py:152 | a path without `/` is its own base name |
| Paths.BasenameSpec | audt_data/d03_src/utils/check_headers.py:152 | the base name is the slash-free end of the path, and the whole path exactly when it has no `/` |
| Paths.Dirname | audt_data/d03_src/utils/check_headers.py:158 | the directory name is a prefix of the path |
| Paths.PathJoin | audt_data/d03_src/utils/check_headers.py:253 | the joined path ends with the file name |
| Paths.Suffix | audt_data/d03_src/utils/check_headers.py:196 | the suffix is empty, or a dot and at least one character |
| Paths.SuffixSpec | audt_data/d03_src/utils/check_headers.py:196 | the suffix has no dot after its first character |
| Paths.Stem | audt_data/d03_src/utils/check_headers.py:105 | a stem is empty only for an empty name |
| Paths.StemSuffix | audt_data/d03_src/utils/check_headers.py:105 | stem + suffix is the name |
| Strings.JoinSplit | audt_data/d03_src/utils/check_headers.py:105 | joining the pieces of a split with the same separator gives the string back |
| Strings.SplitCount | d01_data/acs/helpers.py:32-37 | `split` gives one piece more than `count` finds separators |
| Strings.CountZero | d01_data/acs/helpers.py:32 | `count` finds none exactly when the separator does not occur |
| Strings.StripEmpty | audt_data/d03_src/pp/acs/batch_pp.py:55-60 | `strip()` is empty exactly when the text is all whitespace |
| Strings.NatToStringValue | audt_data/d03_src/pp/acs/batch_pp.py:33 | reading back `str(n)` gives n |
| Strings.DigitsRoundTrip | audt_data/d03_src/pp/acs/batch_pp.py:33 | digits without a leading zero survive `str(int(d))` |
| Strings.ParseIntDigits | d01_data/acs/helpers.py:67 | `int()` of plain digits is their value |
| Strings.LexLeTotal | d01_data/acs/helpers.py:50 | string order is total |
| Strings.LexLeTransitive | d01_data/acs/helpers.py:50 | string order is transitive |
| Strings.LexLeAntisymmetric | d01_data/acs/helpers.py:50 | string order is antisymmetric |
| Json.Lookup | d01_data/acs/helpers.py:25 | `d.get(key)` finds a value exactly when some pair has that key |
| Json.MemberTest | audt_data/d03_src/pp/acs/batch_pp.py:92 | `'variables' in data` is a key test on a dict and raises on a number, a boolean or null |

## Left out

- Floating point: none of the modelled code depends on it. `astype(int)` is modelled as Python `int()` on text followed by an int64 range check.
- Text is compared by code point. `lower`, `capitalize` and `\w` are modelled on ASCII letters only.
- Strings.ParseInt: reads ASCII digits only. Python's `int()` also accepts other Unicode decimal digits, such as Arabic-Indic ones.
- BatchPp.NamePrefix: `\d` in the file-name pattern is read as an ASCII digit. Python's `re` also matches other Unicode decimal digits there.
- AcsHelpers.VerifyAcsData: a table that has the `GEOID` or the `year` column twice (two keys of `cols` renamed to the same name) is not modelled apart from a single one. There pandas selects a frame, and `.unique()` raises; the model reads the name as present.
- AcsHelpers.MdRowOf: each metadata row keeps the fields of its own variable. `from_dict(orient='index')` gives every row the union of all variables' fields, with NaN where a variable lacks one, and the source puts `column` first; neither the NaN filling nor the column order is modelled.
- Json: an object is assumed to have distinct keys, as `json.loads` output for the files read here. For a repeated key Python keeps the last value, while `Json.Lookup` finds the first; that case is not modelled.
- AcsHelpers.CombineAcsYears: the model stacks rows with the columns of each table. `pd.concat` over tables with different column sets aligns them, fills the gaps with NaN and turns integer columns into floats; that is not modelled.
- AcsHelpers.ParseAcs: a raw column already named `tract_id` is taken to be replaced by the new tract column. When the raw header names `tract_id` twice, what pandas does on assigning to and indexing by the repeated name is not modelled.
- Regular expressions are modelled as the predicates they amount to for each pattern; there is no general regex engine.
- File I/O, `glob`, `os.walk`, git access (`git.Repo`, `find_git_repo`, `iter_commits`) and `os.getcwd` are inputs:
  - the raw directory is a map from name to text and decoded JSON;
  - the working tree is a map from path to text;
  - the walk is a list of (directory, file names);
  - the repository is its working directory, origin URL and, for each file, the author of the most recent commit touching it (what `iter_commits(max_count=1, reverse=True)` yields, since git applies the limit before the reversal).
- The content-sniffing fallbacks of `process_acs_file` (`batch_pp.py` lines 68-87) and the inference of `pd.read_json` are not modelled. A file's JSON is what `json.loads` gives, and a data table is a JSON list of rows of strings and nulls.
- The sidecar search by `glob` in `batch_pp.py` lines 117-121 is modelled as a lookup of the `_md.json` and `_metadata.json` names.
- `BatchPp.ProcessAcsFile`: the CSV writing and the logging are not modelled. The output is the parsed table itself, stored under its file name.
- `BatchPp.BatchProcessAcs`: the repository root is an input, and the timing and log lines of the report are left out.
- `get_acs_data`, `get_acs_data_range`, `quick_validate_acs` and `merge_acs_data` (`helpers.py` lines 72-178) read files and use geographic joins; they are not part of this model.
- pathlib normalisation of paths is not modelled: paths are plain `/`-separated strings.
- `CheckHeaders.Workspace.Run`: the exceptions `get_repo_name` and `get_author` catch, other than a missing origin remote or commit, are not modelled. `print` output is left out.
- Logger: `termcolor` output, handlers, timestamps and the `inspect.stack` lookup are left out. The caller's file name is a parameter of `GetModuleName`.
- `Logger.LoggingModule.AddLoggingLevel`: attributes are a map from name to a small description. Calling the registered method is not modelled.
- `pp_topology.py`, `repo.py` and `import_helper.py` are not part of this model.

## Findings

| source | as written | input that shows it | evidently intended | confidence | as-written member | corrected member |
|---|---|---|---|---|---|---|
| audt_data/d03_src/utils/check_headers.py:83-85 | the `.sh` header pattern requires the file to start with `#!/bin/bash`. `add_header` keeps any other shebang line and writes the header after it (lines 220-223). | a `.sh` file whose content starts with `#!/bin/sh\n`: every run adds the header again | the header written after a kept shebang line is recognised, so a second run adds nothing | not executed | CheckHeaders.ShebangRerunAddsAgain | CheckHeaders.RerunAddsNothing |
