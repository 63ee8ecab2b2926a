# clean_data, modelled in Dafny

This project models `clean_data` from the disaster-response ETL script
`data/process_data.py`. The function takes the joined messages/categories
frame and turns its encoded `categories` column (`related-1;request-0;...`)
into one integer column per category. It then coerces `related` to 0/1,
drops exact duplicate rows and fills the remaining nulls with 0.

The model is split into these modules:

- `Tables` (tables.dfy): cells (`Null | Text | Num`), rows and tables seen
  positionally. Also column lookup by label (`Count`, `IndexOf`), column
  removal and positional concatenation.
- `CategoryCodec` (codec.dfy): the per-cell decoding.
  - Python's `split(';')`.
  - The width and null padding of `str.split(expand=True)`.
  - `x[:-2]` (`ColumnName`), and `str[-1]` followed by `astype(int)` (`LastDigit`).
  - An encoder for `name-v;...` strings with its round trip.
- `Duplicates` (dedup.dfy): `drop_duplicates` as `Dedup`, which keeps the
  first occurrence of each row in order. The module proves that `Dedup` is
  exactly the first-occurrence listing.
- `Frames` (frames.dfy): `Series.map`, `fillna`, and a `Frame` class whose
  methods change the frame in place:
  - `drop(inplace=True)`
  - column assignment of a mapped column
  - `drop_duplicates(inplace=True)`
  - `fillna(inplace=True)`
- `ProcessData` (process_data.dfy): the transform itself.
  - `Clean` specifies it as a function from table to `Result`.
  - `CleanData` is the method that runs it on a `Frame`, line by line.
  - `ConvertCategories` is the per-column conversion loop.
  - Every exception the source can raise is an explicit `CleanError`.
- `CleanProperties` and `CleanOutput` (properties.dfy) state exactly when
  cleaning succeeds and what each output row is. This follows the row back
  to its input row.
- `FillAfterDedup` (finding.dfy): the ordering problem between lines 32 and
  33 (see Findings).

Three behaviours of `clean_data` are easy to misread:

- **Number of split columns.** `split(expand=True)` makes as many columns
  as the largest part count over all rows. The names come from the first
  row only. Any ragged column makes cleaning raise:
  a padding null in the first row cannot be named, and one in a later row
  cannot be converted. So no null from the split ever reaches `fillna`.
- **Values of the category columns.** The docstring at
  data/process_data.py:17 says "convert values to binary". Only `related`
  is coerced to {0, 1}. The other category columns keep whatever digit
  0-9 their strings carry.
- **Uniqueness of rows.** The same docstring says "drop duplicates". The
  rows returned are not always pairwise distinct (see Findings).

Error outcomes follow the exceptions pandas raises:

- `MissingColumn`: a missing `categories` or `related` column (`KeyError`).
- `AmbiguousColumn`: a label carried by more than one column, because
  `frame[label]` is then a frame without `.str` or `.map`.
- `NoRows`: an empty frame (`iloc[0]`).
- `UnnamedColumn`: a first-row part that is not a string (`x[:-2]` on NaN).
- `NotConvertible`: a part that is missing, empty or does not end in a
  digit.

## Model

| member | source | states |
|---|---|---|
| Tables.DistinctIffCountsOne | data/process_data.py:22-27 | derived names are pairwise distinct exactly when every name selects a single column |
| Tables.RemoveOnlyOccurrence | data/process_data.py:29 | dropping the only `categories` column removes that label and keeps every other label |
| CategoryCodec.Split | data/process_data.py:19 | `split(';')` gives at least one piece and no piece holds a `;` |
| CategoryCodec.JoinSplit | data/process_data.py:19 | joining the pieces with `;` gives back the string, so splitting loses nothing |
| CategoryCodec.SplitJoin | data/process_data.py:19 | splitting `;`-joined separator-free pieces gives back exactly those pieces |
| CategoryCodec.ColumnName | data/process_data.py:21 | `x[:-2]` is the part without its last two characters, and empty when the part is shorter than two |
| CategoryCodec.LastDigit | data/process_data.py:25-27 | a part converts exactly when it is a non-empty string ending in a decimal digit; the value is between 0 and 9 and is the digit that character denotes |
| CategoryCodec.ExpandCell | data/process_data.py:19 | a cell expands to exactly the width; position `j` holds the `j`-th piece when the cell is a string with more than `j` pieces, and is null otherwise |
| CategoryCodec.Expand | data/process_data.py:19 | the expanded frame has one row per cell, all rows as wide as the largest part count, row `i` being cell `i` expanded |
| CategoryCodec.Width | data/process_data.py:19 | the expanded width bounds every row's part count and is attained by some row |
| CategoryCodec.RaggedRowHasNull | data/process_data.py:19 | a row with fewer pieces than the width, or one that is not a string, gets a null in the expanded frame |
| CategoryCodec.DecodeLabel | data/process_data.py:21-27 | an encoded `name-v` holds no `;`, is named `name` by `x[:-2]` and converts to `v` |
| CategoryCodec.DecodeEncoded | data/process_data.py:19-27 | an encoded `name-v;...` string splits into one piece per label, each named by its label and converting to its value |
| Duplicates.Dedup | data/process_data.py:32 | the survivors are exactly the input's distinct rows, pairwise different, and no more of them than input rows |
| Duplicates.DedupSnoc | data/process_data.py:32 | a further row survives exactly when it differs from all earlier survivors |
| Duplicates.DedupKeepsFirstOccurrenceOrder | data/process_data.py:32 | survivors are listed in the order of their first occurrence |
| Duplicates.FirstOccurrenceOrderIsUnique | data/process_data.py:32 | two first-occurrence listings of the same rows are the same listing |
| Duplicates.DedupIsFirstOccurrences | data/process_data.py:32 | a sequence is the result of `drop_duplicates` if and only if it lists the input's rows in first-occurrence order |
| Duplicates.DedupAfterMap | data/process_data.py:32-33 | deduplicating, transforming every row, then deduplicating again equals transforming then deduplicating once |
| Duplicates.MapDedupMembers | data/process_data.py:32-33 | after deduplication and a per-row transformation, every input row's image is present, every row present is an image, and there are no more rows than inputs |
| Tables.DropColumn | data/process_data.py:29 | dropping column `k` keeps the table well formed, with one column fewer; every other label and cell keeps its order, shifted left past `k` |
| Tables.Concat | data/process_data.py:30 | appending the derived columns keeps every row; the labels are the old ones then the new ones, and row `i` is the old row `i` followed by its derived values |
| Frames.MapCell | data/process_data.py:31 | `map` never yields a string; it yields a number exactly when the cell is a number the mapping has a key for, and then the mapped value |
| Frames.MapColumn | data/process_data.py:31 | mapping column `k` keeps every row and its width, sets cell `k` to its image, and leaves every other cell unchanged |
| Frames.FillReplacesOnlyNulls | data/process_data.py:33 | `fillna` turns each null into the fill value and leaves every other cell as it was |
| Frames.FillIsIdempotent | data/process_data.py:33 | with a non-null fill value no null remains, and filling again changes nothing |
| Frames.Frame.constructor | data/process_data.py:30 | the frame `concat` builds holds the given table |
| Frames.Frame.DropAt | data/process_data.py:29 | the frame loses the column at the given position and every row loses its cell there |
| Frames.Frame.MapAt | data/process_data.py:31 | only the chosen column changes, and each of its cells becomes its image under the mapping or null |
| Frames.Frame.DropDuplicates | data/process_data.py:32 | the frame's rows become their first-occurrence deduplication and its columns are kept |
| Frames.Frame.FillNa | data/process_data.py:33 | every null cell becomes the fill value and every other cell is kept |
| ProcessData.NamesOf | data/process_data.py:20-22 | the first expanded row names every column by `x[:-2]`, or the first position holding no string raises |
| ProcessData.ConvertFrom | data/process_data.py:23-27 | conversion succeeds exactly when every column is selected alone and every part ends in a digit; otherwise the first failing column's error is raised |
| ProcessData.ConvertCategories | data/process_data.py:23-27 | the column loop returns exactly the conversion's outcome, including which column raises and how |
| ProcessData.DecodeCategories | data/process_data.py:19-27 | a successful decode records where `categories` was, and gives one converted row per input row, each as wide as the derived names |
| ProcessData.SplitCategories | data/process_data.py:19-22 | a successful split finds the single `categories` column, gives one row of parts per input row (and at least one row), each as wide as the derived names |
| ProcessData.DecodeFrame | data/process_data.py:19-27 | decoding a frame (splitting, then the column loop) gives exactly the decode of its contents |
| ProcessData.Assemble | data/process_data.py:29-30 | the frame without `categories`, with the derived columns appended, is well formed |
| ProcessData.Coerced | data/process_data.py:19-31 | when the steps up to the `related` mapping succeed, the frame is well formed |
| ProcessData.Clean | data/process_data.py:15-34 | as written (deduplicate, then fill), a successful clean gives a well-formed table |
| ProcessData.CleanCorrected | data/process_data.py:15-34 | with the fill before deduplication, a successful clean gives a well-formed table |
| ProcessData.CleanData | data/process_data.py:15-34 | returns a fresh frame holding `Clean` of the input, or raises `Clean`'s error; the caller's frame has lost `categories` exactly when decoding succeeded |
| CleanProperties.UniformWidth | data/process_data.py:19 | when every string splits like the first one, the expanded width is the first string's part count |
| CleanProperties.WidthBounds | data/process_data.py:19 | every row has at least one part, and no more parts than the width |
| CleanProperties.ConvertedEverywhere | data/process_data.py:23-27 | a successful conversion found a final digit in every part and distinct column names |
| CleanProperties.NoNullsMeansUniform | data/process_data.py:19 | an expansion without nulls comes from strings that all split into as many pieces as the width |
| CleanProperties.ExpandedDecodes | data/process_data.py:19-27 | a column that names and converts without raising is uniform and convertible, and its names are the first row's parts without their last two characters |
| CleanProperties.DecodableExpands | data/process_data.py:19-27 | a uniform, convertible column with distinct derived names names and converts without raising |
| CleanProperties.DecodeSucceedsIff | data/process_data.py:19-27 | decoding succeeds if and only if there is exactly one `categories` column, every string splits into the same number of parts, every part ends in a digit and the derived names are distinct |
| CleanOutput.DecodedContents | data/process_data.py:19-27 | decoding yields the derived names and, for each row, the value of each of its pieces |
| CleanOutput.DecodedRow | data/process_data.py:25-27 | row `i` of the converted parts holds the final-digit value of each of its own pieces |
| CleanOutput.AssembledRows | data/process_data.py:29-30 | the concatenated frame's columns are the input's without `categories`, then the derived names; row `i` is the input row without its encoded cell, followed by its piece values |
| CleanOutput.CleanSucceedsIff | data/process_data.py:19-31 | cleaning succeeds if and only if decoding succeeds and exactly one output column is `related`; the output's columns are the input's without `categories`, in order, then the derived names |
| CleanOutput.DecodedShape | data/process_data.py:19-27 | a decodable frame decodes, remembering the position of `categories` and giving the derived names |
| CleanOutput.CleanOfDecodable | data/process_data.py:19-31 | on a decodable frame, cleaning succeeds exactly when one output column is `related`, and the output's columns are then the expected ones |
| CleanOutput.CleanDropsCategories | data/process_data.py:29-30 | the output has a `categories` column only if an encoded string names one, and every other input column is kept |
| CleanOutput.CoercedRows | data/process_data.py:19-31 | before the fill, output row `i` is input row `i` decoded with `related` mapped |
| CleanOutput.CleanRowsCorrespond | data/process_data.py:32-33 | no more rows than the input; every input row's cleaned form is in the output; every output row is some input row's cleaned form |
| CleanOutput.JoinedRowDigits | data/process_data.py:25-30 | a joined row has one cell per output column, and each derived cell holds a digit 0-9 |
| CleanOutput.MappedAndFilled | data/process_data.py:31-33 | mapping `related` and filling leaves no null, turns raw 1 and 2 into 1 and anything else into 0, and keeps the other digits |
| CleanOutput.ExpectedRowCells | data/process_data.py:31-33 | a cleaned row has no null, its `related` is the outcome of the raw value, and its other derived cells are digits |
| CleanOutput.CleanHasNoNulls | data/process_data.py:33 | no cell of the cleaned frame is null |
| CleanOutput.CleanRelatedIsBinary | data/process_data.py:31-33 | every cleaned row's `related` is 0 or 1 |
| CleanOutput.CleanCategoriesAreDigits | data/process_data.py:25-33 | every derived column other than `related` holds a digit 0-9 in every cleaned row |
| FillAfterDedup.ExampleCoerced | data/process_data.py:19-31 | on the two-row example, `related` 3 becomes null and 0 stays 0 |
| FillAfterDedup.CleanMayKeepDuplicates | data/process_data.py:32-33 | as written, the two-row example cleans to two equal rows |
| FillAfterDedup.CleanCorrectedCollapsesExample | data/process_data.py:32-33 | with the fill first, the same example cleans to a single row |
| FillAfterDedup.CleanCorrectedDropsFilledDuplicates | data/process_data.py:32-33 | the corrected clean succeeds exactly when the written one does, and returns the written one's rows deduplicated: no two equal, each one a row of the written output |

## Left out

- `load_data` (data/process_data.py:5-12) is not modelled. It reads CSV files and calls `pd.merge`, which are library I/O. The joined table is the model's input.
- `save_data` (data/process_data.py:36-41) is not modelled: it is SQLite persistence.
- `main` (data/process_data.py:43-69) is not modelled: it handles command-line arguments and printing.
- pandas dtypes are abstracted to null, string and integer cells. The model leaves out:
  - the int-to-float promotion when `map` introduces NaN;
  - float cells in general;
  - NaN-equality details inside `drop_duplicates`. Nulls compare equal here, as `drop_duplicates` treats them.
- The `pd.concat` at line 30 is modelled positionally. This is valid because the frame keeps the 0..n-1 index that `pd.merge` gives it. Index alignment of frames with other indexes is not modelled.
- CategoryCodec.LastDigit accepts only the ASCII digits '0'-'9'. Python's `int()` also accepts other Unicode decimal digits; the model does not.
- ProcessData.DecodeCategories reports a categories column without a single string as `UnnamedColumn`. pandas instead raises already at line 19, because `.str` refuses a column with no strings. Both are exceptions; only the kind differs.
- The line 23-27 loop is modelled column by column (`ConvertCategories`), and each column is converted at once, as `.str[-1]` / `astype(int)` do. The intermediate string column that line 25 stores is not kept as a separate state.
- ProcessData.CleanData models the code as written, with duplicates dropped before the fill. The corrected order is `ProcessData.CleanCorrected`. All properties proved for `Clean` carry over to it through `FillAfterDedup.CleanCorrectedDropsFilledDuplicates`.

## Findings

| source | as written | input that shows it | evidently intended | confidence | as-written member | corrected member |
|---|---|---|---|---|---|---|
| data/process_data.py:32-33 | duplicates are dropped before nulls are filled. A row whose `related` maps to null (any value other than 0, 1 or 2) differs from an otherwise equal row with `related` 0, so both survive, and then the fill makes them equal | columns `id`, `categories`; rows `[1, "related-3"]` and `[1, "related-0"]` clean to two rows `[1, 0]` | no two rows of the cleaned frame are equal, so the fill comes before `drop_duplicates` | medium, not executed | FillAfterDedup.CleanMayKeepDuplicates | FillAfterDedup.CleanCorrectedDropsFilledDuplicates |
