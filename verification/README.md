# Excel auto-fill: the sheet normaliser

The repository holds two near-duplicate Streamlit scripts, `streamlit_app.py` and
`test.py`. Each one loads an uploaded workbook and works on its active worksheet in
three steps:

1. It checks that the header row has an identifier column.
2. It appends every missing target column to the header.
3. In every data row whose identifier cell is truthy, it overwrites the target
   columns' cells with fill values.

The model has that transform once, parameterised by a `Config`:

- the identifier names, and how their column is found;
- the target column list;
- the fill policy;
- the number of leading ordinals the fill passes over.

The two scripts are two instances of it:

- `StreamlitApp` looks up `sku` or `mpn` through `col_map`. It fills
  `DEFAULT_VALUES.get(col, "")` and skips nothing.
- `TestScript` looks up `mpn` through `headers.index`. It fills `"test"` and
  skips ordinals 1 and 2.

Modules, in dependency order:

- `Cells` (cells.dfy): the `Cell` value and Python truthiness. It also holds
  openpyxl's implicit empty cells (`CellAt`, `Pad`).
- `Headers` (headers.dfy): `list.index`, the last position of a name, and the
  header-extension loop `Extend` with its characterisation.
- `ColumnMaps` (colmaps.dfy): the `col_map` dictionary comprehension. A repeated
  name keeps its last ordinal.
- `Rows` (rows.dfy): the fill value of a target column (`FillValue`: the
  column's default or `""`, or one constant) and the inner fill loop over the
  target list.
- `Normalizer` (normalizer.dfy): validation, the row pass and the whole
  transform, with the properties relating them.
- `Scripts` (scripts.dfy): the constants of both scripts, the two
  configurations, and each script's promises stated in its own terms.

The worksheet is a stored header row plus stored data rows of cells, each up to
its last stored cell, so the rows may differ in length. openpyxl reads every row
at the sheet's width (`max_column`, the length of the longest row):

- The header as read (`ws[1]`, `HeaderRead`) is the stored header followed by
  empty cells up to the longest data row. Validation, extension and lookup all
  work on it, so appended target columns start after the widest data row.
- Writing the new header cells widens the sheet to the extended header. Each
  data row is then iterated at that width, with empty cells past its stored ones
  (`Pad`).

A validation failure is an `Err` result: the scripts only show an error banner
and write nothing.

## Model

| member | source | states |
|---|---|---|
| Cells.Pad | streamlit_app.py:58 | a data row as iterated has the sheet's width, and each position holds the stored cell there or an empty cell past the stored ones |
| Headers.FirstIndex | test.py:29 | `headers.index(x)` is a position holding `x`, and no earlier position holds `x` |
| Headers.Extend | streamlit_app.py:49-52 | the header-extension loop, which is also test.py:32-35: the header as read stays a prefix of the result. The appended part is characterised by the five `Extend…` lemmas below |
| Headers.ExtendHasTargets | streamlit_app.py:49-52 | after extension every target column names a header cell |
| Headers.ExtendAppendsOnlyMissing | streamlit_app.py:49-52 | every appended header cell is a target name that the header as read did not contain |
| Headers.ExtendAppendsEveryMissing | streamlit_app.py:49-52 | every target missing from the header as read is among the appended cells |
| Headers.ExtendAppendsOnce | streamlit_app.py:49-52 | the appended cells are pairwise distinct, so no target is appended twice even when the list repeats it |
| Headers.ExtendAppendsInTargetOrder | streamlit_app.py:49-52 | any two appended cells are target names, and they appear in the order of their first position in the target list |
| Headers.ExtendKeepsComplete | streamlit_app.py:49-51 | a header that already contains every target is left as it is |
| Headers.ExtendIdempotent | streamlit_app.py:49-51 | extending an extended header appends nothing |
| Headers.ExtendKeepsFirstIndex | test.py:29-35 | extension does not move the first occurrence of any name of the header as read, so `mpn_idx` stays valid |
| ColumnMaps.Build | streamlit_app.py:54 | the keys of `col_map` are exactly the header's cells, and each maps to the 1-based ordinal of that name's last occurrence |
| ColumnMaps.BuildInjective | streamlit_app.py:54 | no two names share an ordinal in `col_map` |
| ColumnMaps.Column | streamlit_app.py:64 | `col_map[x] - 1` is the last position of `x` in the header |
| ColumnMaps.ExtendKeepsColumn | streamlit_app.py:49-54 | extension leaves the `col_map` entry of every name of the header as read unchanged |
| Rows.FillRow | streamlit_app.py:63-66 | the inner fill loop, which is also test.py:44-51: the row keeps its width. Its cells are characterised by `FillRowKeeps` and `FillRowWrites` |
| Rows.FillRowKeeps | test.py:44-51 | a cell that no target maps to with an ordinal above the skip bound keeps its value through the fill loop |
| Rows.FillRowWrites | streamlit_app.py:63-66 | every target whose ordinal is above the skip bound ends with its fill value at that ordinal, whatever it held before |
| Rows.FillRowIdempotent | streamlit_app.py:63-66 | running the fill loop over an already filled row changes nothing |
| Normalizer.IdColumn | streamlit_app.py:55-56 | the identifier column read holds that name. With `headers.index` (test.py:29) it is absent exactly when the header as read lacks the name, and otherwise it is the first occurrence. With `col_map.get` it is absent exactly when the extended header lacks the name, and otherwise it is the last occurrence |
| Normalizer.Width | streamlit_app.py:58 | the data-row part of `max_column`: no data row is longer, and it is the length of one of them (0 without rows) |
| Normalizer.HeaderRead | streamlit_app.py:42 | `[cell.value for cell in ws[1]]`, which is also test.py:24: the stored header is a prefix, every later cell is `None`, and no data row is longer. Its length is that of the stored header or of some data row. It holds the same non-empty names as the stored header |
| Normalizer.TruthyIn | streamlit_app.py:59-60 | `idx and row[idx - 1].value`: an identifier counts for a row only when it has a column and that cell is truthy. So a truthy identifier is a name of the extended header, and with `headers.index` (test.py:29, 42-43) a name of the header as read |
| Normalizer.Present | streamlit_app.py:59-62 | its contract states only that identification needs at least one identifier name and a non-empty extended header. The characterisation of `has_sku or has_mpn` and `if mpn_val:` (test.py:43) is in `Normalizer.PresentOfTwo`, `Normalizer.IdentifiedByFirstColumn`, `Scripts.StreamlitIdentified` and `Scripts.TestIdentified` |
| Normalizer.PresentOfTwo | streamlit_app.py:59-62 | with two identifiers, a row is identified exactly when either one's cell is truthy |
| Normalizer.ExtendedFits | streamlit_app.py:63-64 | `col_map[col]` exists for every target and is an ordinal inside the extended row |
| Normalizer.ProcessRow | streamlit_app.py:58-66 | a processed data row is widened to the extended header. Only a row longer than the header it is processed against would keep its own length, and `Normalizer.Normalize` never passes one |
| Normalizer.Normalize | streamlit_app.py:42-66 | the transform fails exactly when no identifier name is in the stored header. Otherwise the header as read is a prefix of the new header, the number of rows is unchanged, and every output row is exactly as wide as the new header |
| Normalizer.NormalizeHeader | streamlit_app.py:49-52 | the new header is the header as read followed by exactly the missing targets, once each, in target-list order, and it contains every target |
| Normalizer.WrittenIsFilled | streamlit_app.py:63-66 | a column the fill loop writes is named by a target, lies above the skip bound, and is that name's last occurrence |
| Normalizer.ProcessRowFills | streamlit_app.py:62-66 | in an identified row, every filled column holds its target's fill value |
| Normalizer.ProcessRowKeeps | streamlit_app.py:58-66 | every other cell of a processed row equals the cell it held before, or is empty past the stored cells |
| Normalizer.ProcessRowCell | streamlit_app.py:58-66 | each cell of a processed row is either the fill value or its previous value, and which one is decided by presence and the column alone |
| Normalizer.ProcessRowCells | streamlit_app.py:58-66 | the same, for all cells of a row at once |
| Normalizer.NormalizeRowCells | streamlit_app.py:58-66 | row `i` of the output is row `i` of the input processed against the header as read, so row order is kept. It is as wide as the new header, and each cell is the fill value or its previous value as stated |
| Normalizer.UntouchedRow | streamlit_app.py:58-62 | a row without a truthy identifier is unchanged apart from the empty cells added by widening |
| Normalizer.FilledRowTargets | streamlit_app.py:62-66 | in an identified row, every target at `col_map[col]` above the skip bound holds the fill value |
| Normalizer.KeptColumns | streamlit_app.py:58-66 | a cell keeps its value in every row if it is below the skip bound, under a non-target name, or under a name that recurs further right |
| Normalizer.KeepsBeyondStoredHeader | streamlit_app.py:42-66 | a stored data cell to the right of the stored header is never overwritten, because that column reads as `None` and the targets are appended after it |
| Normalizer.IdColumnIsLastOriginal | streamlit_app.py:54-56 | for a non-target identifier, `col_map.get` on the extended header gives its last column in the header as read, or nothing |
| Normalizer.IdentifiedByFirstColumn | test.py:29-43 | with one identifier looked up by `headers.index`, a row is identified exactly when the identifier's first column holds a truthy value |
| Normalizer.AbsentStaysAbsent | streamlit_app.py:55-62 | a row without a truthy identifier has none after widening, against the extended header |
| Normalizer.ProcessRowTwiceCell | streamlit_app.py:58-66 | processing a processed row again leaves each of its cells as it is |
| Normalizer.ProcessRowIdempotent | streamlit_app.py:58-66 | a processed row is a fixed point of the row pass against the extended header |
| Normalizer.RowIdempotent | streamlit_app.py:58-66 | each data row of a normalised sheet is a fixed point of the row pass |
| Normalizer.NormalizedHeaderRead | streamlit_app.py:42-58 | the header of a normalised sheet reads back unchanged, since no output row is longer than it |
| Normalizer.NormalizeIdempotent | streamlit_app.py:42-66 | normalising a normalised sheet gives the same sheet, for every sheet that passes validation |
| Scripts.StreamlitRejects | streamlit_app.py:45-46 | the upload is rejected exactly when the stored header, and so the header as read, has neither `sku` nor `mpn` |
| Scripts.StreamlitIdsAreNotTargets | streamlit_app.py:6-14 | neither `sku` nor `mpn` is in `TARGET_COLUMNS` |
| Scripts.StreamlitIdentified | streamlit_app.py:55-62 | a row is identified exactly when the last `sku` column or the last `mpn` column of the header as read holds a truthy value |
| Scripts.StreamlitFillsDefaults | streamlit_app.py:62-66 | in an identified row, each target column's cell holds `DEFAULT_VALUES.get(col, "")` |
| Scripts.StreamlitKeepsUnidentified | streamlit_app.py:58-62 | an unidentified row keeps every value |
| Scripts.TestIdIsNotTarget | test.py:6-13 | `mpn` is not in `AUTO_FILL_COLUMNS` |
| Scripts.TestRejects | test.py:26-27 | the upload is rejected exactly when the stored header, and so the header as read, has no `mpn` |
| Scripts.TestIdentified | test.py:29-43 | a row is identified exactly when the first `mpn` column of the header as read holds a truthy value |
| Scripts.TestFillsConstant | test.py:43-51 | in an identified row, every auto-fill column at an ordinal above 2 holds `"test"` |
| Scripts.TestKeepsLeadingColumns | test.py:47-49 | the cells at ordinals 1 and 2 are never modified, even under an auto-fill name |
| Scripts.TestKeepsOtherColumns | test.py:44-51 | a column not named by an auto-fill column keeps its value in every row |
| Scripts.TestWideRowExample | test.py:24-51 | with stored header `mpn` and data row `M1, x, y`, the new header begins `mpn, None, None`, so no auto-fill column lands on ordinals 2 or 3, and `y` is kept |
| Scripts.TestKeepsMpn | test.py:29-51 | the `mpn` cell read by the script is never modified |

## Left out

- The Streamlit calls (`st.title`, `st.file_uploader`, `st.error`, `st.success`,
  `st.download_button`) are UI. The error banner is the `Err` result, and the
  success path is the `Ok` sheet.
- Workbook loading and saving, `BytesIO` and xlsx bytes are left out because they
  live in a foreign library and do I/O. The worksheet is an in-memory header
  plus rows.
- Cell formatting and styles are left out because the transform never reads
  them. The same goes for the unused `pandas` import in test.py.
- Concrete numbers, floats, booleans and dates are reduced to `Scalar(n)`, with
  zero standing for every falsy scalar. Truthiness is all the transform
  observes of them.
- Merged cell ranges are outside the grid abstraction. In openpyxl every cell of
  a merged range except the top-left one is read-only, so writing a fill value
  there (streamlit_app.py:66, test.py:51) raises an exception and the script
  stops without offering a download. The model treats every cell as writable and
  returns `Ok` in that case.
- Normalizer.Normalize returns no sheet on failure. The scripts' "nothing is
  written" is therefore stated as the absence of an output rather than as an
  unchanged workbook.
- Normalizer.IdColumn with `FirstInOriginal` and several identifiers generalises
  test.py, which has only `mpn`. The `Scripts` lemmas state the single-identifier
  case.
- A repeated header name is looked up as the code does it: `col_map` keeps the
  last occurrence and `headers.index` the first. The scripts do not document
  which behaviour they intend, and a "first occurrence wins" rule would be a
  plausible alternative. The model follows the code, so with `col_map` a later
  duplicate shadows the earlier column for both the identifier and the fill.
