# Upload validation and table transformations of the data-analysis dashboard

This project is a Dafny model of the two pieces of the dashboard's own logic
that are more than calls into Flask, pandas, plotting libraries or the AI client:

- **Upload-name validation** (`app/utils.py`). `allowed_file` takes the final
  extension of a file name, lower-cases it and checks it against
  `{".csv", ".xlsx", ".xls", ".json"}`. The extension follows the POSIX
  `os.path.splitext` rule: it runs from the last `.` of the final path
  component, and leading dots of that component never start one.
  `save_and_get_path` rejects a missing or disallowed upload with
  `(None, None)` and saves nothing. Otherwise it sanitises the name, saves
  the file under the upload folder and returns that path with the
  lower-cased extension of the sanitised name. Module `Utils`, file
  `utils.dfy`.
- **Transformation dispatcher** (`TransformationService` in
  `app/processor.py`). `get_null_report` maps each column that holds a
  missing value to how many it holds. `apply_transform` applies `dropna_col`,
  `fillna_col`, `drop_col` or `groupby` to a copy of the table. It returns
  `(new table, None)`, or `(original table, error text)` when the step
  raises. Module `Processor`, file `processor.dfy`.

`wrappers.dfy` holds the `Option` and `Result` datatypes both modules use.

Modelling choices:

- A table is a value. It has an ordered sequence of column names and a sequence
  of rows. Each row maps every column to a cell, and a cell is `None` where
  pandas holds a missing value. `Processor.Valid` states that the column names
  are distinct and that every row has exactly the table's columns.
- `apply_transform` copies its input before changing anything, so it is a
  function on table values. Its input can never change.
- Request parameters are a map from keys to scalar cells, with `None` for JSON
  null. A `column` parameter names a column only when it is a string. An absent,
  null or non-string column therefore behaves like a missing column: `dropna_col`
  and `fillna_col` raise `KeyError`, and `drop_col`'s membership test is false.
  A `value` parameter that is present but null makes pandas' `fillna` raise
  `ValueError`.
- werkzeug's `secure_filename` is a parameter `string -> string` about which
  nothing is assumed. `file.save` is recorded as the list of paths written
  (`SaveOutcome.written`). The upload object is truthy exactly when its file
  name is non-empty, as werkzeug's `FileStorage` defines it.
- The `groupby` aggregation is a parameter `(Table, Params) -> Result<Table>`.
  The dispatcher and the error fall-back around it are modelled. The
  aggregation itself is not.

## Model

| member | source | states |
|---|---|---|
| `Utils.SplitExt` | app/utils.py:11 | the root and extension concatenate back to the name; the extension is empty or a dot followed by characters that are neither dots nor separators |
| `Utils.ExtensionFromStart` | app/utils.py:11 | where the reference definition of an extension start holds, the extension is exactly the suffix from there |
| `Utils.StartOfExtension` | app/utils.py:11 | a non-empty extension starts at a position satisfying the reference definition (last dot, non-dot character earlier in the same component) |
| `Utils.ExtensionCharacterized` | app/utils.py:11 | the extension is non-empty exactly when the reference definition finds a start, and then equals the suffix from it |
| `Utils.AllowedFileIff` | app/utils.py:5-12 | `allowed_file` is true exactly when some extension start exists and the lower-cased suffix from it is one of the four allowed extensions |
| `Utils.ExtensionOfAppend` | app/utils.py:11 | only the last extension counts: appending a dot-extension to a stem whose final component has a non-dot character makes it the extension |
| `Utils.LastExtensionDecides` | app/utils.py:11-12 | `backup.txt.csv` is accepted and `report.csv.exe` is rejected |
| `Utils.LeadingDotsGiveNoExtension` | app/utils.py:11-12 | a final component of leading dots followed by dot-free text has the empty extension and is rejected |
| `Utils.DotlessFinalComponentRejected` | app/utils.py:11-12 | a name whose final component has no dot has the empty extension and is rejected, since `""` is not allowed |
| `Utils.NamesWithoutExtensionRejected` | app/utils.py:11-12 | `data` and `.csv` are both rejected |
| `Utils.ExtensionStartSameShape` | app/utils.py:11 | extension starts depend only on where dots and separators are |
| `Utils.ExtensionSameShape` | app/utils.py:11 | names with dots and separators in the same places have extensions of the same length |
| `Utils.AllowedFileIgnoresCase` | app/utils.py:11-12 | names equal up to ASCII case get the same verdict |
| `Utils.AllowedFileUpper` | app/utils.py:11-12 | a name and its upper-cased variant get the same verdict |
| `Utils.CsvAccepted` | app/utils.py:5-12 | `data.csv` is accepted |
| `Utils.CsvAcceptedInAnyCase` | app/utils.py:5-12 | `data.csv` and `DATA.CSV` are both accepted |
| `Utils.Join` | app/utils.py:22 | an absolute name replaces the folder; otherwise the result is the folder, a `/` exactly when the folder is non-empty and does not end in one, then the name |
| `Utils.SaveAndGetPath` | app/utils.py:14-28 | `(None, None)` and no save exactly when the upload is falsy or its name is disallowed; otherwise one save to the folder joined with the sanitised name, which is the returned path, and the returned extension is the lower-cased extension of the sanitised name |
| `Utils.RejectedUploadIsNotSaved` | app/utils.py:19-28 | whatever the sanitiser, a disallowed name yields `(None, None)` and nothing is written |
| `Utils.StartInPathIsStartInName` | app/utils.py:22-25 | an extension start in `folder/ + name` lies inside the name, at the shifted position |
| `Utils.StartInNameIsStartInPath` | app/utils.py:22-25 | an extension start in a separator-free name is one in `folder/ + name` |
| `Utils.NonEmptyPathExtension` | app/utils.py:22-25 | a non-empty extension of the joined path is the name's extension |
| `Utils.NonEmptyNameExtension` | app/utils.py:22-25 | a non-empty extension of a separator-free name is the joined path's extension |
| `Utils.ExtensionOfFinalComponent` | app/utils.py:22-25 | a path's extension is the extension of its separator-free final component |
| `Utils.JoinPlacesNameInFolder` | app/utils.py:22 | joining a separator-free name gives a directory part (empty or ending in `/`) followed by the name |
| `Utils.SavedExtensionIsPathExtension` | app/utils.py:21-26 | when the sanitised name has no separator, the returned extension is the lower-cased extension of the returned path |
| `Utils.SanitisedExtensionMayBeDisallowed` | app/utils.py:21-26 | a sanitiser that drops the extension makes an accepted `data.csv` return extension `""`, which is not allowed |
| `Processor.NullCountPositive` | app/processor.py:132 | a column's null count is positive exactly when some row misses its value |
| `Processor.NullCountZero` | app/processor.py:132 | a column with no missing value has null count zero |
| `Processor.NullReportSpec` | app/processor.py:131-133 | the report's keys are exactly the columns with a missing value in some row, each mapped to its positive null count |
| `Processor.DropNullRows` | app/processor.py:141 | the result holds exactly the input rows whose cell in the column is present, and its length is the input length minus the null count |
| `Processor.DropNullRowsAppend` | app/processor.py:141 | dropping null rows distributes over concatenation, so the kept rows stay in their original order |
| `Processor.FillNulls` | app/processor.py:145 | same number of rows; each row is unchanged except that a missing cell in the column becomes the fill value |
| `Processor.FillNullsCounts` | app/processor.py:142-145 | after filling, the filled column has no missing value and every other column keeps its null count |
| `Processor.RemoveColumn` | app/processor.py:149 | the remaining names are exactly the others, never longer than before |
| `Processor.RemoveAbsentColumn` | app/processor.py:146-149 | removing a name that is not there changes nothing |
| `Processor.RemoveColumnAt` | app/processor.py:146-149 | with distinct names, removing a column cuts out its one position and keeps the other columns in order |
| `Processor.RemoveCells` | app/processor.py:149 | every row loses exactly its cell in the dropped column |
| `Processor.RemoveCellsCounts` | app/processor.py:149 | after removing a column the other columns keep their null counts |
| `Processor.ReportLosesColumn` | app/processor.py:131-133 | when only one column changes and it ends with no missing value, the report loses that column and nothing else |
| `Processor.DropNaColumn` | app/processor.py:139-141 | `dropna_col` succeeds exactly when the column exists |
| `Processor.FillNaColumn` | app/processor.py:142-145 | `fillna_col` succeeds exactly when the column exists and the fill value is not null |
| `Processor.ApplyTransform` | app/processor.py:136-159 | on error the original table is returned; unknown actions return the table unchanged with no error; `drop_col` never errs; `dropna_col` errs exactly on a missing column; `fillna_col` errs exactly on a missing column or null value; `groupby`'s result or error passes through the same fall-back |
| `Processor.DropNaColKeepsPresentRows` | app/processor.py:139-141 | `dropna_col` keeps exactly the rows whose cell is present, in order, with all columns; the result is well-formed, the column leaves the null report, and the row count falls by the reported count |
| `Processor.FillNaColFillsOnlyThatColumn` | app/processor.py:142-145 | `fillna_col` fills exactly the missing cells of the column; other cells, column order and row count are unchanged; the report loses only that column |
| `Processor.FillValueDefaultsToZero` | app/processor.py:144 | without a `value` parameter the fill value is 0 |
| `Processor.DropColRemovesOnlyThatColumn` | app/processor.py:146-149 | `drop_col` on a present column removes it and only it, keeps the other columns in order, strips it from every row, keeps the table well-formed and drops only it from the report |
| `Processor.DropColAbsentIsNoOp` | app/processor.py:146-149 | `drop_col` on an absent column returns the table unchanged with no error |
| `Processor.MissingColumnIsAnError` | app/processor.py:139-159 | `dropna_col` and `fillna_col` on a missing column return the original table with an error |
| `Processor.ApplyTransformPreservesValid` | app/processor.py:136-157 | every action other than `groupby` turns a well-formed table into a well-formed table |

## Left out

- `app/routes.py`, `app/ai_service.py`, `app/__init__.py`, `app/models.py`, `config.py` and `debug_app.py` are not part of this model. They are HTTP handling, file reading and writing, pandas loading, plotting, base64 encoding, the generative-AI call, ORM declarations and configuration, all I/O or foreign library calls.
- `DataService` in `app/processor.py` is not part of this model. It renders charts with matplotlib and seaborn, works on floating-point correlations and encodes images.
- The `groupby` aggregation (app/processor.py:150-155) is a parameter. It is chosen by name and delegated to pandas, where `mean` and the like are floating point. Only its routing and its error fall-back are modelled.
- werkzeug's `secure_filename` is a parameter with no assumed behaviour, and `file.save` is recorded rather than performed. The filesystem effect and I/O errors of the save are not modelled.
- `Utils.Join` and `Utils.SplitExt` follow the POSIX path rules. Windows `ntpath`, with `\` as a second separator and drive letters, is not modelled.
- `Utils.Lower` and `Utils.Upper` change ASCII letters only. Python's Unicode case mapping is wider, for example the Kelvin sign lower-cases to `k`. No allowed extension contains a letter that a non-ASCII character lower-cases to, so the accept/reject verdict is unaffected. The returned extension text can differ for such names.
- A `FileStorage` whose `filename` is None is modelled as an empty name. Both are falsy, so both are rejected.
- Error texts are fixed descriptive strings. They are not the exact `str(e)` of the pandas exceptions.
- Cell values are integers, strings and booleans. Floating point, pandas dtypes (and `fillna` upcasting them), and the row index labels that `dropna` keeps are not modelled. The index is not written back when a transformed table is saved.
- Request parameters are scalars. A `column` parameter given as a list, which pandas would treat as a column selection, is not modelled.
- The order of the keys of `get_null_report`'s dict, which follows the column order, is not modelled: Dafny maps are unordered.
- `Processor.Valid` requires distinct column names. pandas allows duplicates, but the model's rows are maps from column name to cell.
- Values model the copy that `apply_transform` makes. The in-place assignment `df_copy[col] = ...` on that private copy has no observable aliasing, so no mutable table is modelled.
