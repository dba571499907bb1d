# Analytical ledger record pipeline, in Dafny

This project models the record pipeline of condomob-documents-ocr2data. The
pipeline turns the OCR output of a condominium's analytical ledger (*razão
analítico*) into ledger records. It has six stages:

1. A page of text is cut into blocks at its account-title lines
   (`split_blocks`).
2. Each block is cleaned down to its ASCII table (`clean_table_text`,
   `clean_total_ascii_table`) and keyed by the title line before it
   (`convert_list_to_dict`).
3. Each table is decoded into a frame with the six canonical columns Data,
   Descrição, Participante, Documento, Período and Valor. Three known defects
   of the OCR header are repaired first: duplicated columns, a merged
   "Descrição Participante" column and an empty column in the middle. Only
   rows whose Data is a valid `DD/MM/YYYY` date are kept
   (`from_ascii_table_to_dataframe`).
4. The blocks are concatenated. Each row is tagged with the account code and
   label of its title, the Brazilian amount text is cast to a float and Data
   to a timestamp (`data_processing`).
5. Two row classifiers work on tables exported row by row.
   - The docling classifier (`identify_row`, `get_current_title`) keeps the
     dated rows under their nearest title.
   - The older classifier of `src/extract.py` also recognises truncated rows.
     It merges the text of those rows into the next full row
     (`merge_truncated`).
6. A page of records is enriched from an account configuration and a list of
   unit names (`transform_generated_analytical_data`).

There are two ASCII-table decoders: the current one
(`src/processors/llmwhisperer_analytical.py`) and an older one
(`src/analytical_v2.py`). They share most of their code and differ in a few
places, so one parameter, `Decoder = Current | Older`, selects between them.

The data model:
- A table is a `Frame`: column names, row labels (the pandas index) and rows
  of cells.
- A cell is `Option<string>`: `None` is pandas' NaN, which is distinct from
  the empty string.
- Python exceptions are the `Error` values of a `Result`.
- Every regular expression of the pipeline is a hand-written recogniser in
  module `Regexes`.
- The run-time pattern `".*" + key` of the rename step is compiled and
  matched in module `RuntimePatterns`, over a subset of the regex syntax.

Steps that work by mutating a DataFrame are methods of the class
`Frames.DataFrame`. Each method is proved against a function on the frame's
value. The properties are proved about those functions.

Modules and files:

| module | file | models |
|---|---|---|
| `Wrappers` | wrappers.dfy | `Option`, `Result` and the Python exceptions |
| `Kinds` | kinds.dfy | the row kinds of `ExtracTypeRow`, as the `constants` module that `src/extract.py:1` imports defines them (that module is not part of this model; the kinds are those `src/extract.py:9-51` uses, the two TRUNCATED ones included), and the canonical columns `COLLUMNS_ANALYTICAL` (`src/utils/constants.py:15-17`) |
| `Text` | text.dfy | `str.strip`, `split`, `join` and `replace` |
| `Regexes` | regexes.dfy | the fixed regular expressions |
| `RuntimePatterns` | patterns.dfy | `str.match(".*" + key)` of the rename step |
| `ExtractUtils` | extractutils.dfy | `src/utils/extract_utils.py` |
| `TextBlocks` | blocks.dfy | splitting, cleaning and keying the text blocks |
| `Frames` | frames.dfy | the DataFrame operations shared by both decoders |
| `LlmWhisperer` | llmwhisperer.dfy | the current ASCII-table decoder |
| `AnalyticalV2` | v2.dfy | the older ASCII-table decoder |
| `Ledger` | ledger.dfy | `data_processing` of both decoders |
| `Extract` | extract.dfy | `src/extract.py` |
| `DoclingAnalytical` | docling.dfy | `src/processors/docling_analytical.py` |
| `RpTransformers` | enrichment.dfy | `src/rp_transformers/analytical.py` |

## Model

| member | source | states |
|---|---|---|
| ExtractUtils.ValidateIffCanonical | src/utils/extract_utils.py:9-23 | validate accepts a string exactly when it is `DD/MM/YYYY`: slashes, a two-digit day and month, a four-digit year from 1600, and a day that month has in that Gregorian year |
| ExtractUtils.ValidatedIsCanonical | src/utils/extract_utils.py:14-21 | a string that matches the pattern and survives the strptime/strftime round trip has the canonical shape and a real calendar day |
| ExtractUtils.CanonicalValidates | src/utils/extract_utils.py:14-21 | every canonical date matches the pattern and survives the round trip |
| ExtractUtils.CanonicalParses | src/utils/extract_utils.py:17 | strptime with `%d/%m/%Y` reads a canonical date as its own day, month and year |
| ExtractUtils.CanonicalPrints | src/utils/extract_utils.py:17-19 | strftime prints that date back as the same text |
| ExtractUtils.UnpaddedPassesRegexOnly | src/utils/extract_utils.py:14-20 | "1/1/2020" matches the date pattern but fails the round trip, so it is rejected |
| ExtractUtils.DashesPassRegexOnly | src/utils/extract_utils.py:14-20 | "01-01-2020" matches the date pattern but fails the round trip, so it is rejected |
| ExtractUtils.LeapDayAccepted | src/utils/extract_utils.py:5 | 29/02/2024 is accepted |
| ExtractUtils.CommonYearLeapDayRejected | src/utils/extract_utils.py:5 | 29/02/2023 is rejected |
| ExtractUtils.ThirtyFirstOfFebruaryRejected | src/utils/extract_utils.py:5 | 31/02/2024 is rejected |
| ExtractUtils.ExtractGroup | src/utils/extract_utils.py:26-39 | None when the title does not match or the group number exceeds 3; otherwise group 1 is the code and group 3 the label |
| ExtractUtils.ExtractGroupRoundTrip | src/utils/extract_utils.py:33-39 | a code and a one-line label joined by " - " come back out as groups 1 and 3 |
| Regexes.MatchAccount | src/extract.py:43 | on a match the groups are a code of the pattern's shape, the separator " - " and a label without a line break; the input is exactly their concatenation, with at most one final "\n" (Python's `$`) |
| Regexes.MatchAccountCompose | src/processors/llmwhisperer_analytical.py:17 | conversely, a code of the pattern's shape, " - " and a one-line label are matched with exactly those groups |
| Regexes.TwoDigitMinorIsDotted | src/analytical_v2.py:14 | whatever the older title pattern matches, the dotted pattern matches with the same groups |
| Regexes.DottedIsLoose | src/processors/docling_analytical.py:35 | whatever the dotted pattern matches, the current decoder's pattern matches with the same groups |
| Regexes.DottedExample | src/extract.py:43 | "1.2 - Receitas" matches with code "1.2" and label "Receitas" |
| Regexes.TwoDigitMinorExample | src/analytical_v2.py:14 | the older pattern rejects "1.2 - Receitas": it wants two digits after the dot |
| Regexes.NoDotExample | src/processors/llmwhisperer_analytical.py:17 | "1 - X" is no dotted title, but the current decoder's pattern takes it |
| Regexes.DuplicateSuffix | src/processors/llmwhisperer_analytical.py:211 | a recognised duplicate-column suffix is " ." followed by digits at the end of the name |
| Regexes.DuplicateSuffixOf | src/processors/llmwhisperer_analytical.py:220 | every name of the form base + " ." + digits is recognised, and its prefix is base |
| Regexes.UnitKey | src/rp_transformers/analytical.py:8 | a match yields a unit key of the form digits-QDdigits-LTdigits, taken from after "Un? " |
| Regexes.PageNamePeriod | src/rp_transformers/analytical.py:7 | a match needs a name starting "page_"; the period begins and ends with a digit and holds a '-' |
| Regexes.PageNameCompose | src/rp_transformers/analytical.py:7 | "page_<n>_<year>-<month>.csv" yields the period "<year>-<month>" |
| RuntimePatterns.Compile | src/rp_transformers/analytical.py:89-95 | a compiled key is ".*" followed by the key's pieces; re.error arises only for keys with parentheses |
| RuntimePatterns.PlainCompiles | src/rp_transformers/analytical.py:89-95 | a key without regex syntax compiles to ".*" and its characters as literals |
| RuntimePatterns.PlainKeyMatch | src/rp_transformers/analytical.py:89-95 | for such a key, an entry matches exactly when the key occurs in it before its first line break |
| RuntimePatterns.PlusRepeats | src/rp_transformers/analytical.py:89-95 | the key "A+B" is read as a regex: it matches "X AAB" although the text "A+B" does not occur in it |
| RuntimePatterns.UnclosedGroupRejected | src/rp_transformers/analytical.py:89-95 | the key "LOJA (CENTRO" does not compile |
| TextBlocks.SplitBlocksSpec | src/processors/llmwhisperer_analytical.py:43-49 | splitting loses nothing: the pieces, each title with the "\n\n" it consumed, rejoin to the page; every captured title is a single title line of that decoder's pattern and is among the returned blocks; every text piece is a stretch of the page in which no title line followed by "\n\n" starts |
| TextBlocks.SplitTextHasNoTitle | src/processors/llmwhisperer_analytical.py:43-49 | a text element of re.split is a stretch of the page at none of whose positions the title pattern matches, so no title is left unsplit |
| TextBlocks.ExtractUntitledTable | src/processors/llmwhisperer_analytical.py:92-102 | the result is the text before the first "\n\n", or the whole text when there is none, and holds no "\n\n" |
| TextBlocks.CleanKeepsTableLines | src/processors/llmwhisperer_analytical.py:52-64 | for a text starting with a table line, the result's lines are exactly its table lines (`+-` or `\|`), in order, and there is at least one; the current decoder takes them from the part before the first blank line only |
| TextBlocks.CleanHasNoBlankLine | src/processors/llmwhisperer_analytical.py:56-63 | the current decoder's cleaned table holds no "\n\n" |
| TextBlocks.CleanIdempotent | src/analytical_v2.py:40-52 | cleaning a cleaned text changes nothing, for both decoders |
| TextBlocks.CleanTotalHasNoTotal | src/processors/llmwhisperer_analytical.py:168-176 | no line of the result starts with TOTAL |
| TextBlocks.CleanTotalKeepsOthers | src/processors/llmwhisperer_analytical.py:168-176 | a table without a TOTAL line is returned unchanged |
| TextBlocks.ConvertListToDictSpec | src/processors/llmwhisperer_analytical.py:144-153 | the keys are distinct; the value of a key is the last table element whose stripped predecessor is that key, and element 0 is keyed by the stripped last element |
| Frames.FromRows | src/processors/llmwhisperer_analytical.py:190-198 | a table as read has rows labelled 0, 1, 2, … |
| Frames.StripNames | src/processors/llmwhisperer_analytical.py:124-129 | every column name is stripped and the order is kept |
| Frames.StripNamesIdempotent | src/processors/llmwhisperer_analytical.py:124-129 | stripping the names twice is stripping them once |
| Frames.RenameColumn | src/processors/llmwhisperer_analytical.py:246-251 | every column called `from` is renamed and nothing else changes |
| Frames.InsertColumn | src/processors/llmwhisperer_analytical.py:252 | ValueError when the name exists; IndexError when loc is past the last column; otherwise the column appears at loc with the value in every row and the other cells are kept |
| Frames.DropColumns | src/processors/llmwhisperer_analytical.py:236 | KeyError exactly when a name is missing; otherwise the columns left are those not named, with labels kept |
| Frames.DropUnnamed | src/processors/llmwhisperer_analytical.py:294 | the columns left are exactly those whose name does not start with "Unnamed" |
| Frames.SetColumns | src/processors/llmwhisperer_analytical.py:295 | succeeds exactly when the number of names equals the width, and then only the names change |
| Frames.AllMissing | src/processors/llmwhisperer_analytical.py:270 | KeyError for a missing column; otherwise true exactly when every cell of the column is NaN |
| Frames.DropInvalidRows | src/processors/llmwhisperer_analytical.py:105-111 | KeyError exactly when there is no Data column; a table without rows loses its columns too; label order is kept |
| Frames.DropInvalidRowsSpec | src/analytical_v2.py:91-97 | a (label, row) pair is in the result exactly when it is in the input with a text Data cell that validates once stripped |
| Frames.DropInvalidRowsKeeps | src/processors/llmwhisperer_analytical.py:109-111 | every row with a valid Data keeps its label |
| Frames.DropInvalidRowsValid | src/processors/llmwhisperer_analytical.py:109-111 | every row left has a valid Data |
| Frames.StripCellsSpec | src/processors/llmwhisperer_analytical.py:114-121 | each text cell becomes str.strip() of its old text, so it has no edge whitespace, and a cell is NaN afterwards exactly when it was NaN before |
| Frames.StripCellsIdempotent | src/analytical_v2.py:100-107 | stripping the cells twice is stripping them once |
| Frames.ConcatNoop | src/processors/llmwhisperer_analytical.py:67-89 | when every Data cell is text, the NaN condition never holds and no line changes the table |
| Frames.ConcatAfterDropIsNoop | src/processors/llmwhisperer_analytical.py:296 | after drop_invalid_rows, concat_dataframe_cells returns the table unchanged |
| Frames.ConcatKeepsRows | src/processors/llmwhisperer_analytical.py:71-88 | a label can only disappear if the loop visits it, and no label appears |
| Frames.ConcatKeepsFirstRows | src/processors/llmwhisperer_analytical.py:71 | the first two rows are never dropped |
| Frames.FindText | src/processors/llmwhisperer_analytical.py:73-76 | the column loop reports whether the row holds a non-blank text cell |
| Frames.MergeRow | src/processors/llmwhisperer_analytical.py:73-85 | the column loop leaves the row above equal to the cell-by-cell merge specification, or raises its error |
| Frames.ScanRow | src/processors/llmwhisperer_analytical.py:72-88 | one line of the loop: its error, no change, or the row above rewritten and the line dropped, as the line specification says |
| Frames.DataFrame.Rename | src/processors/llmwhisperer_analytical.py:246-251 | the new value is the renamed frame |
| Frames.DataFrame.Insert | src/processors/llmwhisperer_analytical.py:252 | the new value is the frame with the column inserted; on an error the frame is unchanged and the error is returned |
| Frames.DataFrame.InsertSeries | src/rp_transformers/analytical.py:81-100 | the same for a column of per-row cells |
| Frames.DataFrame.Drop | src/processors/llmwhisperer_analytical.py:236 | the new value is the frame without the named columns; on a KeyError the frame is unchanged |
| Frames.DataFrame.StripStringCells | src/processors/llmwhisperer_analytical.py:114-121 | the new value is the old one with its text cells stripped |
| Frames.DataFrame.ConcatDataframeCells | src/processors/llmwhisperer_analytical.py:67-89 | the new value is the concatenation specification applied to the old one, or its error is returned |
| Frames.DataFrame.ConcatLine | src/processors/llmwhisperer_analytical.py:72-88 | the same for one line of the loop |
| LlmWhisperer.PrefixOf | src/processors/llmwhisperer_analytical.py:139 | a name with a duplicate suffix has as prefix the part of it before " .N" |
| LlmWhisperer.GroupedGet | src/processors/llmwhisperer_analytical.py:132-141 | the group of a prefix is exactly the names that carry it, in input order; a prefix that no name carries has no group |
| LlmWhisperer.GroupedDistinct | src/processors/llmwhisperer_analytical.py:136-141 | the dictionary has no key twice |
| LlmWhisperer.GroupedMembers | src/processors/llmwhisperer_analytical.py:137-140 | a name lies in some group exactly when it carries a duplicate suffix |
| LlmWhisperer.BaseNotMember | src/processors/llmwhisperer_analytical.py:138-140 | the base column is never in its own group |
| LlmWhisperer.FindSimilarColumns | src/processors/llmwhisperer_analytical.py:132-141 | the loop builds the grouping specification |
| LlmWhisperer.GroupedExample | src/processors/llmwhisperer_analytical.py:219-221 | ["Col1", "Col1 .1", "Col2"] groups as Col1 → ["Col1 .1"] |
| LlmWhisperer.RepairGroup | src/processors/llmwhisperer_analytical.py:222-236 | succeeds exactly when every duplicate and the base column exist and the base column holds no text (`math.isnan` of a str raises TypeError); then the duplicates are gone and every other column stays |
| LlmWhisperer.RepairGroupsColumns | src/processors/llmwhisperer_analytical.py:222-240 | after all groups, a column is left exactly when it was there and belongs to no group |
| LlmWhisperer.RepairGroupInPlace | src/processors/llmwhisperer_analytical.py:223-236 | the in-place repair of one group leaves the repaired frame or returns its error |
| LlmWhisperer.RepairDuplicates | src/processors/llmwhisperer_analytical.py:222-240 | the loop over the groups does the same for all of them |
| LlmWhisperer.RepairMergedSpec | src/processors/llmwhisperer_analytical.py:242-253 | with the merged header in second place, the repair succeeds with one more column, "Descrição" second and "Participante" third |
| LlmWhisperer.RepairMergedRows | src/processors/llmwhisperer_analytical.py:242-253 | with the merged header in second place, every row gets an empty Participante third cell and keeps its first two cells |
| LlmWhisperer.RepairMergedInserts | src/processors/llmwhisperer_analytical.py:246-252 | that repair is the rename followed by the insert at position 2 |
| LlmWhisperer.RepairUnnamedSpec | src/processors/llmwhisperer_analytical.py:270-285 | with Valor all NaN, Valor is dropped and every name after the last Unnamed one takes the name of its right neighbour, while the other names are kept |
| LlmWhisperer.RepairUnnamedShifts | src/processors/llmwhisperer_analytical.py:270-285 | that repair is the drop of Valor followed by the right-to-left renaming loop |
| LlmWhisperer.ShiftNames | src/processors/llmwhisperer_analytical.py:273-285 | the renaming loop leaves the frame its specification gives |
| LlmWhisperer.Finish | src/processors/llmwhisperer_analytical.py:294-296 | a finished table has exactly the six canonical columns |
| LlmWhisperer.RepairInPlace | src/processors/llmwhisperer_analytical.py:205-293 | the three repairs in place leave the repaired frame or return the first error |
| LlmWhisperer.RepairDuplicatedInPlace | src/processors/llmwhisperer_analytical.py:207-240 | the duplicate repair in place follows its specification |
| LlmWhisperer.RepairMergedInPlace | src/processors/llmwhisperer_analytical.py:242-256 | the merged-column repair in place follows its specification |
| LlmWhisperer.RepairUnnamedInPlace | src/processors/llmwhisperer_analytical.py:259-293 | the empty-column repair in place follows its specification |
| LlmWhisperer.FinishTable | src/processors/llmwhisperer_analytical.py:294-296 | the last three steps follow their specification |
| LlmWhisperer.FromAsciiTable | src/processors/llmwhisperer_analytical.py:179-296 | the decoder, step by step, returns what the decoding specification gives |
| LlmWhisperer.FromAsciiNoData | src/processors/llmwhisperer_analytical.py:200 | a header without a Data column raises KeyError("Data") |
| LlmWhisperer.FromAsciiShape | src/processors/llmwhisperer_analytical.py:294-296 | a decoded table has the six canonical columns and stripped cells |
| LlmWhisperer.FromAsciiRows | src/processors/llmwhisperer_analytical.py:189-200 | every row kept is an input row, under its position, whose Data is a valid date |
| LlmWhisperer.KeptRowsAreValid | src/processors/llmwhisperer_analytical.py:109-111 | every label left by the date filter of a table as read is an input position with a valid date |
| LlmWhisperer.FromAsciiCanonical | src/processors/llmwhisperer_analytical.py:179-296 | with the canonical header plus the empty last column, decoding succeeds exactly when there is a row, and keeps exactly the rows with a valid date |
| LlmWhisperer.FromAsciiHeaderOnly | src/processors/llmwhisperer_analytical.py:294-295 | a table without rows raises ValueError: the date filter removes every column and six names cannot be set |
| AnalyticalV2.Named | src/analytical_v2.py:120-138 | when naming succeeds, the table has the six canonical columns and one row per input row |
| AnalyticalV2.FromAscii | src/analytical_v2.py:110-141 | a decoded table has the canonical columns, or none when there is no row |
| AnalyticalV2.ConcatIsDead | src/analytical_v2.py:139-141 | concat_dataframe_cells never changes anything here, because it comes after drop_invalid_rows |
| AnalyticalV2.FromAsciiFails | src/analytical_v2.py:129-138 | decoding fails exactly when the merged-column repair fails or there are not six columns left once the Unnamed ones are dropped |
| AnalyticalV2.FromAsciiRows | src/analytical_v2.py:139-141 | every row kept is an input position with a valid Data, and the cells are stripped |
| AnalyticalV2.FilteredRows | src/analytical_v2.py:91-107 | after the filter and the strip, every row has a label of the input and a valid Data |
| AnalyticalV2.FilteredLabels | src/analytical_v2.py:139-141 | a label is kept exactly when its row has a valid Data |
| AnalyticalV2.FromAsciiSixNamed | src/analytical_v2.py:110-141 | with six named columns and an empty last one, decoding succeeds and keeps exactly the rows with a valid Data |
| AnalyticalV2.SixNamedNamed | src/analytical_v2.py:137-138 | such a header is named without error and keeps each row's Data under its position |
| AnalyticalV2.LabelsInRange | src/analytical_v2.py:120-128 | the rows of a named table are labelled by their positions |
| AnalyticalV2.Unmerged | src/analytical_v2.py:129-136 | without a merged header the repair changes nothing |
| AnalyticalV2.FromAsciiTable | src/analytical_v2.py:110-141 | the decoder, step by step, returns what the decoding specification gives |
| Ledger.NormaliseAmount | src/processors/llmwhisperer_analytical.py:323-326 | the result holds no comma, and is shorter than the input by its number of points |
| Ledger.NormalisedPoints | src/analytical_v2.py:167-170 | the points of the result are the input's commas |
| Ledger.NormalisedDigits | src/processors/llmwhisperer_analytical.py:323-326 | the digits are kept, in order |
| Ledger.BrazilianAmount | src/processors/llmwhisperer_analytical.py:323-327 | "x.y,c" becomes "xy.c" and casts to the decimal xy.c |
| Ledger.IntegerValue | src/processors/llmwhisperer_analytical.py:327 | a string of digits casts to its value |
| Ledger.DecimalValue | src/processors/llmwhisperer_analytical.py:327 | "a.c" casts to the decimal a.c |
| Ledger.StrayFails | src/processors/llmwhisperer_analytical.py:327 | a text holding a character that no ASCII float spelling uses does not cast (a non-ASCII decimal digit counts as such a character, see Left out) |
| Ledger.NormalisedStrayFails | src/processors/llmwhisperer_analytical.py:323-327 | such a character other than ',' survives normalisation, so the cast fails (with the same ASCII-digit restriction) |
| Ledger.DebitMarkFails | src/processors/llmwhisperer_analytical.py:323-327 | "1.234,56 D" does not cast |
| Ledger.ToDatetime | src/processors/llmwhisperer_analytical.py:331-333 | a date comes from strptime and lies in the Timestamp range; NaT comes only from NaN or a NaT spelling; every failure is ValueError |
| Ledger.ValidatedDateCasts | src/analytical_v2.py:173-175 | a validated date casts exactly when it lies in the Timestamp range |
| Ledger.EarlyYearRaises | src/processors/llmwhisperer_analytical.py:331-333 | a validated date before 1677 raises ValueError |
| Ledger.EarlyYearFails | src/processors/llmwhisperer_analytical.py:331-333 | "01/01/1600" passes validate but fails the cast |
| Ledger.ConcatSpec | src/processors/llmwhisperer_analytical.py:304-322 | one line per row of every block, each a row of some block with that block's title |
| Ledger.CastAmount | src/processors/llmwhisperer_analytical.py:323-328 | a cast fails exactly when a text cell does not parse as a float once normalised, and then with ValueError |
| Ledger.CastAmounts | src/processors/llmwhisperer_analytical.py:323-328 | the column casts exactly when every cell does, cell by cell |
| Ledger.CastDates | src/processors/llmwhisperer_analytical.py:331-333 | the Data column casts exactly when every cell does, cell by cell |
| Ledger.ProcessedRecords | src/processors/llmwhisperer_analytical.py:303-347 | the corrected data_processing: a page without blocks gives no record |
| Ledger.DataProcessingOk | src/processors/llmwhisperer_analytical.py:299-347 | data_processing succeeds exactly when every amount and date casts, no Valor cell is missing and, for the current decoder, the page has a block; a failed cast is ValueError, and a missing amount that reaches the final fillna("") is TypeError |
| Ledger.FillAmounts | src/processors/llmwhisperer_analytical.py:346 | the fillna("") of the Float64 Valor column succeeds exactly when no amount is <NA>, and then keeps every amount; otherwise TypeError |
| Ledger.CastsFill | src/processors/llmwhisperer_analytical.py:324-346 | when every amount and date casts, the fillna succeeds exactly when every line has a Valor cell |
| Ledger.DataProcessingRecords | src/processors/llmwhisperer_analytical.py:304-347 | one record per row; record k carries line k's cast amount, which is never <NA>, and its cast date, its text fields, and the account code and label of its block's title |
| Ledger.DataProcessingAgrees | src/processors/llmwhisperer_analytical.py:303-333 | data_processing as written agrees with the corrected one exactly when the page has a block or the decoder is the older one |
| Ledger.TitleTags | src/processors/llmwhisperer_analytical.py:307-317 | a title made of a code and a label tags its rows with that code and label |
| Ledger.OlderShortMinor | src/analytical_v2.py:153-162 | the older decoder leaves code and label empty for "1.2 - Receitas" |
| Ledger.ProcessBlocks | src/processors/llmwhisperer_analytical.py:299-347 | the step-by-step procedure returns what data_processing's specification gives |
| Extract.BlankDataRows | src/extract.py:34-38 | with a blank Data, Participante plays no part: blank Valor and Descrição give TRUNCATED_PARTICIPANT, blank Valor alone gives TRUNCATED_DESCRIPTION, a filled Valor gives OTHERS |
| Extract.TruncatedIff | src/extract.py:26-38 | a row is a truncation exactly when its Data and Valor are blank |
| Extract.LoneDataRows | src/extract.py:40-46 | with only Data filled, the kind is TOTAL for the total prefix, else TITLE for a dotted account title, else OTHERS |
| Extract.FilledRows | src/extract.py:47-51 | with Data and another field filled, the kind is HEADERS exactly when the stripped Data is "Data", else ROW |
| Extract.AppendData | src/extract.py:54-55 | the result has no surrounding whitespace |
| Extract.AppendToEmpty | src/extract.py:54-55 | appending to "" gives the stripped text |
| Extract.AppendEmpty | src/extract.py:54-55 | appending "" gives the stripped text |
| Extract.AppendStripped | src/extract.py:54-55 | two non-empty stripped texts are joined by one space |
| Extract.AppendWords | src/extract.py:108-111 | appending fragment after fragment gives the non-blank stripped fragments joined by spaces |
| Extract.GetCurrentTitle | src/extract.py:6-11 | None exactly when no TITLE lies at or before the row; otherwise the Data of the nearest such TITLE |
| Extract.TitleIsOwnTitle | src/extract.py:6-11 | a TITLE row is its own title |
| Extract.HasTruncatedRows | src/extract.py:16-23 | -1 exactly when no row labelled init or more is a truncation; otherwise the label of the first such row |
| Extract.NextRowAfter | src/extract.py:58-65 | the result is -1 or a label after init |
| Extract.NextRowAfterSpec | src/extract.py:58-65 | -1 exactly when no ROW is labelled after init; otherwise the label of the first such ROW |
| Extract.NextRowIsSmallest | src/extract.py:58-65 | with increasing labels, that label is at most the label of any ROW after init |
| Extract.PickedRows | src/extract.py:79-96 | every row picked is a truncation of the table labelled init or more and before the stop row, if there is one |
| Extract.CollectTruncated | src/extract.py:79-123 | the loop returns the labels of the first three candidates and the space-joined Descrição and Participante fragments of those rows |
| Extract.MergeTruncated | src/extract.py:68-130 | the procedure returns the merge specification's table |
| Extract.MergeTarget | src/extract.py:126-128 | the target is a ROW, and its Descrição and Participante become the joined fragments of the picked rows while its other fields are kept |
| Extract.MergeDrops | src/extract.py:105-129 | at most three rows are picked; each picked row is a candidate and is gone from the result |
| Extract.MergeKeepsOthers | src/extract.py:126-129 | every label neither picked nor the target keeps its row unchanged |
| Extract.MergeIncreasing | src/extract.py:129 | labels stay strictly increasing |
| Extract.PickedSkipsRow | src/extract.py:89-90 | a ROW is never dropped |
| Extract.RewriteLookup | src/extract.py:126-129 | after the rewrite, a dropped label is gone, the target has its two new fields, and every other label is unchanged |
| DoclingAnalytical.StrippedDataDecides | src/processors/docling_analytical.py:51 | only the stripped Data decides the kind |
| DoclingAnalytical.RowIffValid | src/processors/docling_analytical.py:53-62 | a row is a ROW exactly when its stripped Data validates, and never a truncation |
| DoclingAnalytical.DateIsNoTitle | src/processors/docling_analytical.py:53-59 | a valid date is not "Data", not a total and not a title, so no earlier branch catches it |
| DoclingAnalytical.BlankIsOthers | src/processors/docling_analytical.py:51-62 | a blank Data gives OTHERS |
| DoclingAnalytical.NoDotNoTitle | src/processors/docling_analytical.py:57 | a Data without a '.' is never a TITLE |
| DoclingAnalytical.TitleMatches | src/processors/docling_analytical.py:57-58 | a TITLE matches the dotted account pattern |
| DoclingAnalytical.ClassifiedRow | src/processors/docling_analytical.py:108-112 | classifying keeps every row's fields, and a row is a ROW exactly when its stripped Data validates |
| DoclingAnalytical.ChainOkIff | src/processors/docling_analytical.py:113-146 | tagging succeeds exactly when every ROW has a TITLE at or before it (re.match on None is a TypeError) |
| DoclingAnalytical.ChainKeepsRows | src/processors/docling_analytical.py:122-125 | the rows tagged are exactly the ROW rows, in order |
| DoclingAnalytical.RowsAreValidDates | src/processors/docling_analytical.py:108-125 | the ROW rows of a classified table are exactly the rows with a valid date, in order |
| DoclingAnalytical.TitleStep | src/processors/docling_analytical.py:38-43 | the current title of a row is the row's own Data when it is a TITLE, else the title of the row before |
| DoclingAnalytical.ProcessedTable | src/processors/docling_analytical.py:105-149 | ValueError when the table is not six wide or has no row; a success has at least one row and is the tagging of the classified rows |
| DoclingAnalytical.ProcessedRows | src/processors/docling_analytical.py:122-146 | once every ROW has a title, processing succeeds exactly when some row has a valid date, and yields those rows in order |
| DoclingAnalytical.ProcessTable | src/processors/docling_analytical.py:102-149 | the step-by-step procedure returns the processing specification's result |
| DoclingAnalytical.ProcessPdfFile | src/processors/docling_analytical.py:101-152 | no result without a table; otherwise the result of the first table only |
| DoclingAnalytical.ResolveTitles | src/processors/docling_analytical.py:113-146 | the title-carrying loop returns the tagging specification's result |
| RpTransformers.ExtractCommonUnitInformation | src/rp_transformers/analytical.py:44-50 | the result is the participant itself or a unit key |
| RpTransformers.ExtractUnitKey | src/rp_transformers/analytical.py:44-50 | "Un. " followed by a unit key gives that key |
| RpTransformers.ExtractOther | src/rp_transformers/analytical.py:47-50 | a participant not starting with "Un" is returned unchanged |
| RpTransformers.MatchedUnits | src/rp_transformers/analytical.py:88-96 | AttributeError when every entry is NaN or every present entry is a number (read_csv then gives a numeric column, which has no .str); otherwise re.error for a key that does not compile; success exactly when the key compiles, every entry is text and the list is not numeric, and then the entries that match, in order |
| RpTransformers.NumberChars | src/rp_transformers/analytical.py:72 | a text read_csv reads as a number holds only digits, signs, the point and exponent letters |
| RpTransformers.TextEntryNotNumeric | src/rp_transformers/analytical.py:72 | a list with an entry holding any other character stays text |
| RpTransformers.DigitsNumber | src/rp_transformers/analytical.py:72 | a run of digits reads as a number |
| RpTransformers.FloatNumber | src/rp_transformers/analytical.py:72 | "-1.5e3" reads as a number |
| RpTransformers.NumericUnitsRaise | src/rp_transformers/analytical.py:72-96 | the lists [101, 102] and [-1.5e3, NaN] make every row raise AttributeError, an empty participant too |
| RpTransformers.RenameUnit | src/rp_transformers/analytical.py:11-17 | the result is the participant or one of the matched names |
| RpTransformers.RenamedOk | src/rp_transformers/analytical.py:84-97 | renaming a row succeeds exactly when its key compiles and every entry of the list is text, and not every entry a number |
| RpTransformers.RenamePlainKey | src/rp_transformers/analytical.py:11-17 | a numeric list raises AttributeError; otherwise an empty participant stays empty; otherwise it becomes the first entry holding its key on the first line, or stays when there is none |
| RpTransformers.RenameLegacyUnit | src/rp_transformers/analytical.py:85-97 | "Un. " plus a unit key is renamed to the first entry, when that entry ends with the key |
| RpTransformers.UnclosedGroupRaises | src/rp_transformers/analytical.py:89-95 | the participant "LOJA (CENTRO" raises re.error, or AttributeError first when the list is numeric |
| RpTransformers.LegacyUnitNotNumeric | src/rp_transformers/analytical.py:72 | a list headed by a unit name is not numeric |
| RpTransformers.PlusKeyRenames | src/rp_transformers/analytical.py:89-95 | the participant "A+B" is renamed to "X AAB" |
| RpTransformers.RenameUnitsSpec | src/rp_transformers/analytical.py:80-108 | the new Participante is the first column, holds each row's renamed participant, every other column keeps its cells, and no column is added |
| RpTransformers.CopiedColumn | src/rp_transformers/analytical.py:81-100 | what insert does with the copy of a page that apply returns: ValueError for a taken name or more than one column, IndexError for none, otherwise that column's cells |
| RpTransformers.ReviewColumn | src/rp_transformers/analytical.py:81-100 | on a page with rows, KeyError without Participante, else each row's renamed participant, the first failing row raising; on a page without rows or columns, the copy of the page |
| RpTransformers.RenameUnitsHeaderOnly | src/rp_transformers/analytical.py:81-100 | a page without rows and with more than one column makes the rename step raise ValueError |
| RpTransformers.FirstConfig | src/rp_transformers/analytical.py:136-147 | the first configuration row whose ContaContabil or ContaContabilNormalizado equals the code |
| RpTransformers.AddConfiguratedColumnSpec | src/rp_transformers/analytical.py:20-28 | "" when no configuration row applies; otherwise the column's cell in the first row that applies, or KeyError when the configuration lacks the column |
| RpTransformers.UnknownCodeIsEmpty | src/rp_transformers/analytical.py:20-28 | a code that no row carries gives "" |
| RpTransformers.AddPeriodoCompetenciaColumn | src/rp_transformers/analytical.py:32-41 | TypeError exactly when file is NaN; "" when the name does not match; otherwise the period of the page name |
| RpTransformers.PeriodOfPageName | src/rp_transformers/analytical.py:32-41 | "page_n_year-month.csv" gives "year-month" |
| RpTransformers.EnrichedCell | src/rp_transformers/analytical.py:133-149 | a cell is computed only when the page has ContaContabil and file and the configuration both code columns, and it is the value for that row's code and file |
| RpTransformers.FillNa | src/rp_transformers/analytical.py:75-77 | no NaN is left and every text cell is kept |
| RpTransformers.Transform | src/rp_transformers/analytical.py:53-166 | with an empty configuration and an empty list, the page is left as read; with an empty list only, it is the account step on the filled page; with an empty configuration only, it is the rename step on the filled page |
| RpTransformers.EnrichAccountsMissingKey | src/rp_transformers/analytical.py:136-148 | a page with rows fails on the first missing key, in the order ContaContabil, the two code columns of the configuration, then file; a page left with no column (only a Periodo column that was read) raises IndexError at the insert |
| RpTransformers.EnrichAccountsSpec | src/rp_transformers/analytical.py:110-159 | ContaContabil is first and holds the configured normalised code; the eight other names follow in reverse loop order, each with the value configured for the row |
| RpTransformers.EnrichAccountsKeeps | src/rp_transformers/analytical.py:110-159 | one row per row, and every column not rewritten keeps its cells |
| RpTransformers.EnrichedColumn | src/rp_transformers/analytical.py:130-152 | on a page with rows, each row's configured value; on a page without rows or columns, an empty column when the lambda returns on the row of NaN, else the copy of the page |
| RpTransformers.HeaderOnlyStep | src/rp_transformers/analytical.py:122-152 | on a page without rows, a turn whose lambda raises fails with ValueError unless the page is one other column, which then gets the name inserted before it |
| RpTransformers.EnrichAccountsHeaderOnly | src/rp_transformers/analytical.py:110-152 | a page without rows and with more than one column, all distinct, makes the account step raise ValueError |
| RpTransformers.TransformHeaderOnly | src/rp_transformers/analytical.py:73-159 | such a page fails the transformation with ValueError whenever a rename list or a configuration is given |
| RpTransformers.TransformBoth | src/rp_transformers/analytical.py:74-159 | with both inputs present, the rename comes first and the account step second |
| RpTransformers.TransformAccount | src/rp_transformers/analytical.py:110-159 | each row's ContaContabil is the configured normalised code |
| RpTransformers.TransformRenamed | src/rp_transformers/analytical.py:80-108 | whenever a rename list is given, with or without a configuration, each row's Participante is its renamed participant |
| RpTransformers.TransformKeeps | src/rp_transformers/analytical.py:53-166 | whenever a rename list is given, with or without a configuration, every column neither step writes keeps its cells, after fillna |
| RpTransformers.ReviewParticipants | src/rp_transformers/analytical.py:80-108 | the in-place rename leaves the renamed page or returns its error |
| RpTransformers.EnrichColumn | src/rp_transformers/analytical.py:122-152 | one pass of the account loop in place follows its specification |
| RpTransformers.EnrichColumns | src/rp_transformers/analytical.py:111-152 | the whole account loop in place follows its specification |
| RpTransformers.TransformGeneratedAnalyticalData | src/rp_transformers/analytical.py:53-166 | the procedure returns the transformation specification's result |

## Left out

- File and network I/O are outside the model; the functions instead take what
  was read as parameters. This covers `openFile`, `process_txt_file`, the
  reading and writing of CSV files, and `analytical_v2.run`.
- The main driver in `src/main.py`, the PDF splitter and the cloud-storage
  service are left out because they only move files.
- pandas' `read_csv` parsing of the `|`-separated text is not modelled. A
  decoder takes the header names and the rows of cells as read.
- The docling converter (`src/processors/docling_analytical.py:73-101`) is
  not modelled. `DoclingAnalytical.ProcessPdfFile` takes the exported tables.
- The `print` calls are not modelled because they only log.
- Python's `\d` also matches non-ASCII digits, but the model's patterns
  accept ASCII digits only. For `validate`, the strftime round trip rejects
  such digits anyway.
- Ledger.StrayFails: a non-ASCII decimal digit (Unicode category Nd, such
  as the Arabic-Indic '١') is Stray, so a text holding one does not cast.
  Python's float() reads such digits: "١٢٣.٤٥" gives 123.45. The model's
  float() reads ASCII digits only.
- Ledger.NormalisedStrayFails: the same restriction. A Valor such as
  "١٢٣,٤٥" normalises to "١٢٣.٤٥", which pandas casts but the model does not.
- Ledger.CastAmount: with the same restriction, an amount written with
  non-ASCII decimal digits fails with ValueError in the model, while the
  Float64 cast reads it.
- Amounts are exact decimals. The rounding of `Float64` to the nearest
  double is not modelled.
- The cells of `src/extract.py` and of the docling export are modelled as
  text only. A NaN Data, on which `.strip()` raises AttributeError, is not
  modelled there.
- Extract.MergeTruncated: requires a ROW after `init`. When there is none,
  pandas' `.at` assignment at lines 127-128 adds a new row labelled -1, and
  that path is not modelled.
- Extract.MergeTruncated: the early stop at lines 98-101 and 122-123 is left
  out. Only truncated rows reach the loop body, and the target row is a ROW,
  so the condition `index == row_to_append_index` never holds.
- Extract.GetCurrentTitle: works by position. `table[row.name::-1]` slices
  by position with a label, and the tables it is given are labelled 0, 1, 2,
  … (docling's `export_to_dataframe`).
- LlmWhisperer.RepairGroup: a NaN cell of the base column is overwritten
  with `get_first_not_null_value` (`src/processors/llmwhisperer_analytical.py:156-165`,
  called at 227-235), which is not a separate member. That value is NaN
  when some duplicate column is entirely NaN. When none is, it is Python's
  None, which the object column (read with `dtype=str`) keeps. The model's
  cells cannot tell None from NaN, so it leaves the base column as it is in
  both cases. The two only differ where a column is converted before the
  final fillna(""): for a duplicated Documento whose duplicates each hold
  some text, `astype(str)` at line 330 writes "None" where
  Ledger.DocumentText gives "nan".
- RpTransformers.MatchedUnits: a list is numeric when every present entry
  is a decimal number with an optional sign, point and exponent. read_csv's
  other inferences are not modelled: entries padded with spaces, "inf",
  thousands separators and True/False (a bool column, which also has no
  .str) are read as text.
- RpTransformers.MatchedUnits: a unit key that uses regex syntax outside the
  modelled subset yields `Unsupported` instead of Python's result. The
  subset covers literal characters, `.`, one `*`, `+` or `?` after a
  character, and unbalanced parentheses. It does not cover escapes,
  classes, braces, alternation, anchors or groups.
- RpTransformers.Transform: the rename list is given as its Participante
  column only. The configuration's cells are text, so a numeric
  configuration column keeps its text rather than pandas' inferred type.
- Imports that do not resolve are bound to the definitions they evidently
  name. `src/processors/docling_analytical.py:28-29` imports
  `COLUMNS_ANALYTICAL` and `ExtractTypeRow` from `utils.constants`, which
  defines only `COLLUMNS_ANALYTICAL` (`src/utils/constants.py:15`) and
  `ExtracTypeRow` (`:5`). `src/processors/llmwhisperer_analytical.py:11`
  imports `FileType`, which that file does not define either. As written,
  both modules raise ImportError when loaded. The model uses the six
  canonical names and the row kinds for them.
- `src/analytical_v2.py:9` imports `validate` and
  `extract_group_from_contacontabilcompleto` from `extract`, and
  `src/extract.py` defines neither. The model uses the functions of
  `src/utils/extract_utils.py` for them (ExtractUtils.Validate and
  ExtractUtils.ExtractGroup). `src/analytical_v2.py:8` and `src/extract.py:1`
  import from a top-level `constants` module, which is not part of this
  model; its `COLLUMNS` is taken to be the six canonical names.
- Column names are unique in every modelled frame. This holds for pandas
  frames read from these files because `read_csv` de-duplicates names with
  the " .N" suffix.

## Findings

| source | as written | input that shows it | evidently intended | confidence | as-written member | corrected member |
|---|---|---|---|---|---|---|
| src/processors/llmwhisperer_analytical.py:303-329 | data_processing starts from an empty frame with the six canonical columns only. It reads `return_data["ContaContabil"]` at line 329, and only the blocks add that column. | a page with no table block (an empty dictionary) raises KeyError("ContaContabil") | a page without blocks gives no record, as the older decoder's data_processing does | not executed | Ledger.DataProcessing (discrepancy stated by Ledger.DataProcessingAgrees and Ledger.DataProcessingOk) | Ledger.ProcessedRecords |
