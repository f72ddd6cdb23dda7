# CSV header repair and table naming for Unity Catalog loads

This project models the core of the Databricks notebook
`data_engineering/load_csvs_in_unity_catalog.py`. The notebook loads the CSV
files under an S3 prefix into Delta tables. Before Spark reads a file, the
notebook inspects the file's header line:

- it finds the delimiter, which is the leftmost of `;`, `,`, TAB or `|`;
- it decides whether the header needs repair. Repair is needed when the first
  carriage return sits strictly inside the header and is not one of its last
  two characters, or when the header contains a "special" character. A special
  character is outside `[a-zA-Z0-9]` and is not a delimiter, space, `_`, CR or LF;
- if repair is needed, it writes a repaired copy of the file to a timestamped
  temporary path and loads that copy instead. In the copy's header, carriage
  returns, special characters and spaces become `_`. In the rest of the copy,
  carriage returns become spaces.

The table is named after the file: `bronze_` followed by the base name, with
each run of non-alphanumeric characters collapsed to one `_`, lower-cased, and
with one trailing `_csv` removed. Columns are renamed by turning spaces into
`_`. The table gets a generated description.

Modules:

- `PyStr`: the Python string operations the notebook uses, with Python's
  semantics written out. These are `find` (which returns -1), one-character
  `replace`, slicing with negative and out-of-range indices, `removesuffix`,
  and `str()` of an integer.
- `CsvInspection`: `find_delimiter` and `get_non_alphanumeric_chars`.
- `HeaderRepair`: `pre_process_csv` and the path built by `create_temp_csv`.
  `pre_process_csv` is a method, and its `for char in non_alphn` loop is a loop.
- `TableNaming`: `generate_table_name`.
- `TableLoad`: the decisions of `create_table_from_csv`, and the notebook's
  loop that feeds each listed file through `pre_process_csv` and
  `create_table_from_csv`.

File-system reads, the clock and `ntpath.basename` are parameters:

- `head` is what `dbutils.fs.head(path, 2000)` returned;
- `wholeText` is the whole-text read;
- `now` is `int(time.time())`;
- `baseName` is the file's base name;
- `columns` is the column list Spark infers.

A raising `next(...)` in `find_delimiter` is modelled as the `Failure`
outcome.

Two consequences of the code are worth spelling out:

- The substitution and `lower()` turn `Sales Report (2023).csv` into
  `sales_report_2023_csv`. The whole `_csv` is then removed, so no trailing
  `_` remains and the table is `bronze_sales_report_2023`
  (`TableNaming.SalesReportExample`).
- Repair keeps delimiters. The header `id;name` CR `;amount` becomes
  `id;name_;amount` (`HeaderRepair.EmbeddedCarriageReturnExample`).

## Model

| member | source | states |
|---|---|---|
| PyStr.Find | data_engineering/load_csvs_in_unity_catalog.py:138 | `find` returns -1 exactly when the character is absent, and otherwise the index of its first occurrence |
| PyStr.Replace | data_engineering/load_csvs_in_unity_catalog.py:150 | one-character `replace` keeps the length, swaps exactly the matching positions, and leaves no occurrence of the pattern |
| PyStr.SliceFrom | data_engineering/load_csvs_in_unity_catalog.py:157 | `content[return_pos:]` is the suffix from the Python-normalised start, where negative counts from the end and both ends are clamped |
| PyStr.RemoveSuffix | data_engineering/load_csvs_in_unity_catalog.py:158 | `removesuffix` removes the suffix once when present, and otherwise returns the string unchanged |
| PyStr.NatToDecimal | data_engineering/load_csvs_in_unity_catalog.py:70 | `str()` of the timestamp is a non-empty string of decimal digits, with a leading `0` only for zero |
| PyStr.DecimalRoundTrip | data_engineering/load_csvs_in_unity_catalog.py:70 | the decimal text of the timestamp reads back as the same number |
| PyStr.NatToDecimalInjective | data_engineering/load_csvs_in_unity_catalog.py:70 | distinct timestamps have distinct decimal texts |
| CsvInspection.FirstDelimiterIndex | data_engineering/load_csvs_in_unity_catalog.py:58-59 | the generator stops at the leftmost delimiter, or is exhausted exactly when there is none |
| CsvInspection.FindDelimiter | data_engineering/load_csvs_in_unity_catalog.py:56-60 | fails exactly when the header has no delimiter; otherwise returns a delimiter that occurs with no delimiter before it |
| CsvInspection.IsSpecial | data_engineering/load_csvs_in_unity_catalog.py:63-64 | a character is special iff it is outside `[a-zA-Z0-9]` and not in the allowed set: semicolon, comma, TAB, pipe, space, underscore, CR, LF |
| CsvInspection.NonAlphanumericChars | data_engineering/load_csvs_in_unity_catalog.py:62-65 | a duplicate-free list whose members are exactly the header's characters that are neither `[a-zA-Z0-9]` nor allowed |
| CsvInspection.DelimiterOfPrefix | data_engineering/load_csvs_in_unity_catalog.py:56-60 | text after a header prefix that has a delimiter never changes the delimiter found |
| CsvInspection.LeftmostDelimiterExample | data_engineering/load_csvs_in_unity_catalog.py:56-60 | the header `a`, pipe, `b;c` gives the pipe; `ab` has no delimiter |
| HeaderRepair.HeaderOf | data_engineering/load_csvs_in_unity_catalog.py:139 | `split("\n")[0]` is a newline-free prefix that ends at the first newline, if there is one |
| HeaderRepair.NewlineOffsetIsHeaderLength | data_engineering/load_csvs_in_unity_catalog.py:138-139 | when the prefix has a newline, `return_pos` equals the header's length |
| HeaderRepair.NeedsRepair | data_engineering/load_csvs_in_unity_catalog.py:145-148 | a special character anywhere forces repair; repair needs a non-empty header with a CR after its first character or a special character |
| HeaderRepair.NeedsRepairIff | data_engineering/load_csvs_in_unity_catalog.py:145-148 | repair is needed iff the first CR is at an index p with 0 < p < len-2, or some header character is special |
| HeaderRepair.SanitizedHeader | data_engineering/load_csvs_in_unity_catalog.py:150-152 | same length; each CR or special character becomes `_`, everything else is kept; no CR remains |
| HeaderRepair.FinalHeader | data_engineering/load_csvs_in_unity_catalog.py:150-157 | same length; letters, digits and delimiters are kept; no CR, space or special character remains |
| HeaderRepair.FinalHeaderIdempotent | data_engineering/load_csvs_in_unity_catalog.py:150-157 | repairing an already repaired header changes nothing |
| HeaderRepair.FinalHeaderUnchangedIff | data_engineering/load_csvs_in_unity_catalog.py:150-157 | the rewrite leaves a header unchanged iff it has no CR, space or special character |
| HeaderRepair.RepairedContent | data_engineering/load_csvs_in_unity_catalog.py:157 | the new content is the repaired header followed, position by position, by the whole text from the sliced offset with CR made space; it contains no CR |
| HeaderRepair.RepairIsPositional | data_engineering/load_csvs_in_unity_catalog.py:137-157 | when the prefix holds a newline and begins the whole text, the repaired file has the original's length, keeps the newline, and changes each character only by the header or body rewrite |
| HeaderRepair.MissingNewlineKeepsLastCharacter | data_engineering/load_csvs_in_unity_catalog.py:138-157 | with no newline in the prefix, `return_pos` is -1 and only the repaired prefix plus the file's last character is written |
| HeaderRepair.TempCsvPath | data_engineering/load_csvs_in_unity_catalog.py:67-70 | the temporary path lies under `{data_bucket}/tmp/` and ends in `.csv` |
| HeaderRepair.TempCsvPathTimestamp | data_engineering/load_csvs_in_unity_catalog.py:69-70 | for one file name, two temporary paths are equal iff their timestamps are |
| HeaderRepair.ReplaceSpecialChars | data_engineering/load_csvs_in_unity_catalog.py:150-152 | the replacement loop yields the sanitized header whatever order the special characters are listed in |
| HeaderRepair.PreProcessCsv | data_engineering/load_csvs_in_unity_catalog.py:129-163 | fails iff the header has no delimiter; returns that delimiter; returns a non-empty temp path iff repair is needed; writes the repaired content to `{data_bucket}/tmp/<name without .csv>_TS<now>.csv` then, and writes nothing otherwise |
| HeaderRepair.FindFirstOccurrence | data_engineering/load_csvs_in_unity_catalog.py:145 | `find` of a character lands on its first occurrence |
| HeaderRepair.CarriageReturnPositionDecides | data_engineering/load_csvs_in_unity_catalog.py:145-148 | for a plain header with one CR, repair happens iff at least one character precedes the CR and at least two follow it, so a CRLF ending is left alone |
| HeaderRepair.EmbeddedCarriageReturnBecomesUnderscore | data_engineering/load_csvs_in_unity_catalog.py:150-157 | such a CR becomes one `_` and nothing else changes |
| HeaderRepair.EmbeddedCarriageReturnExample | data_engineering/load_csvs_in_unity_catalog.py:140-157 | header `id;name` CR `;amount` needs repair, has delimiter `;` and is repaired to `id;name_;amount` |
| HeaderRepair.TrailingCarriageReturnExample | data_engineering/load_csvs_in_unity_catalog.py:148 | header `id;name` CR is not repaired |
| TableNaming.DropNonAlnumPrefix | data_engineering/load_csvs_in_unity_catalog.py:102 | removes exactly the leading run of non-alphanumeric characters, returning a suffix that is empty or starts with a letter or digit |
| TableNaming.CollapseNonAlnumRuns | data_engineering/load_csvs_in_unity_catalog.py:102 | the `re.sub` result is made of letters, digits and `_`, has no `__`, is empty iff the input is, and starts with a letter or digit iff the input does |
| TableNaming.DropKeepsAlnum | data_engineering/load_csvs_in_unity_catalog.py:102 | dropping the leading run loses no letter or digit |
| TableNaming.CollapseKeepsAlnum | data_engineering/load_csvs_in_unity_catalog.py:102 | the substitution keeps every letter and digit in order and adds none |
| TableNaming.CollapseIdempotent | data_engineering/load_csvs_in_unity_catalog.py:102 | substituting twice is substituting once |
| TableNaming.AsciiLower | data_engineering/load_csvs_in_unity_catalog.py:102 | same length, character-wise lower-casing, no upper-case ASCII letter remains |
| TableNaming.LowerCommutesWithAlnum | data_engineering/load_csvs_in_unity_catalog.py:102 | lower-casing commutes with taking the letters and digits |
| TableNaming.NormalisedName | data_engineering/load_csvs_in_unity_catalog.py:102 | the name before suffix removal uses only `[a-z0-9_]`, has no `__`, and its letters and digits are the file name's, lower-cased |
| TableNaming.GenerateTableName | data_engineering/load_csvs_in_unity_catalog.py:100-103 | starts with `bronze_`; the rest uses only `[a-z0-9_]` with no `__`, and appending the removed `_csv` (if one was removed) gives the normalised name |
| TableNaming.CollapseWord | data_engineering/load_csvs_in_unity_catalog.py:102 | a run of letters and digits passes through the substitution unchanged |
| TableNaming.CollapseSeparator | data_engineering/load_csvs_in_unity_catalog.py:102 | a maximal run of other characters becomes a single `_` |
| TableNaming.NormalisedWordThen | data_engineering/load_csvs_in_unity_catalog.py:102 | a word followed by a separator run normalises to the lower-cased word, `_`, and the normalised remainder |
| TableNaming.TableNameOfCsvStem | data_engineering/load_csvs_in_unity_catalog.py:100-103 | a name that normalises to `<stem>_csv` yields the table `bronze_<stem>` |
| TableNaming.SalesReportExample | data_engineering/load_csvs_in_unity_catalog.py:100-103 | `Sales Report (2023).csv` yields `bronze_sales_report_2023`, with no trailing `_` |
| TableLoad.ColumnAlias | data_engineering/load_csvs_in_unity_catalog.py:216 | same length, spaces become `_`, every other character (parentheses, dashes, accents) is kept |
| TableLoad.ColumnAliasUnchangedIff | data_engineering/load_csvs_in_unity_catalog.py:216 | a column keeps its name iff the name has no space |
| TableLoad.ColumnAliasIdempotent | data_engineering/load_csvs_in_unity_catalog.py:216 | renaming twice is renaming once |
| TableLoad.RenameColumns | data_engineering/load_csvs_in_unity_catalog.py:216 | one alias per column, in order, none with a space, each as long as its column |
| TableLoad.RenameColumnsUnchangedIff | data_engineering/load_csvs_in_unity_catalog.py:216 | the rename leaves the column list unchanged iff no column name has a space |
| TableLoad.RenameCanMergeColumns | data_engineering/load_csvs_in_unity_catalog.py:216 | the distinct columns `a b` and `a_b` get the same alias |
| TableLoad.TableDescription | data_engineering/load_csvs_in_unity_catalog.py:210-212 | the description starts with the creation note; it is exactly the note iff no description was given; otherwise the given one follows after ` . ` |
| TableLoad.CreateTableFromCsv | data_engineering/load_csvs_in_unity_catalog.py:191-225 | reads the temp file iff one is given; renames columns; sets the description; uses the given table name or, if empty, the generated `bronze_` name; saves at `catalog.db.name` |
| TableLoad.PlannedLoad | data_engineering/load_csvs_in_unity_catalog.py:266-268 | a file yields no plan iff its header has no delimiter; otherwise its plan reads the temp copy iff the header needs repair, splits on the header's delimiter, renames columns without spaces, and saves under a `bronze_` name at `catalog.db.name` |
| TableLoad.PlainHeaderReadsSource | data_engineering/load_csvs_in_unity_catalog.py:145-148 | a header of letters, digits and delimiters is loaded straight from the source file |
| TableLoad.EmbeddedCarriageReturnReadsTemp | data_engineering/load_csvs_in_unity_catalog.py:145-161 | a header with an inner CR (one character before it, two after) is loaded from the timestamped temp copy |
| TableLoad.LoadCsvFile | data_engineering/load_csvs_in_unity_catalog.py:266-268 | pre-processing then creation stops iff the header has no delimiter, and otherwise produces the file's planned load |
| TableLoad.LoadCsvFiles | data_engineering/load_csvs_in_unity_catalog.py:266-268 | the loop loads the files in order; the first file whose header has no delimiter stops it, with no later file loaded; it runs to the end iff every header has a delimiter |

## Left out

- Spark and `dbutils` I/O are not modelled. That covers reading the 2000-byte prefix and the whole text, `dbutils.fs.put`, the CSV reader and its options, the Delta writer, `COMMENT ON TABLE` and `TBLPROPERTIES`. Their inputs and outputs are parameters or fields of the result.
- `time.time()` is the parameter `now`. `ntpath.basename` is the parameter `baseName`.
- `dbutils.fs.head` truncates at 2000 bytes, not 2000 characters. The model takes the returned prefix as given, so a multi-byte character cut in half is not modelled.
- `data_bucket` is the constant `DataBucket`. `catalog_bucket`, `create_catalog` and `create_db` only issue SQL, so they are not modelled.
- `list_files_recursively` and `dir_contents` are not modelled. They are directory listing through `dbutils`. The listing is the `files` parameter of `LoadCsvFiles`.
- `CsvInspection.NonAlphanumericChars`: Python returns the set's elements in hash order. The model fixes one order. `ReplaceSpecialChars` gives the same header for any order of the same characters, so the order does not matter.
- `TableNaming.AsciiLower`: lower-cases ASCII letters only. It is applied after the substitution, when only ASCII letters, digits and `_` remain, so this matches `str.lower()` there.
- `print` calls and notebook markdown cells are not modelled.
- The temporary file is not deleted, and collisions between two files sharing a base name in the same second are not modelled. `TempCsvPathTimestamp` shows the path separates timestamps only.
