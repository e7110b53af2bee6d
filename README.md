# PhysiCOOL data viz: the cell-table extraction, modelled in Dafny

The dashboard reads a PhysiCell run's output directory and builds one long table of cell
data. Each saved frame has a `.mat` file whose `cells` matrix holds the cell IDs in row 0
and one cell attribute per further row. The `labels` of `initial.xml` say which row holds
which attribute. `app/data.py` turns every frame into a block of `max_cell_num` rows, one
per cell ID. An ID that the frame does not list gets a zero row. Each block is stamped
with the frame's simulation time, and the blocks are concatenated in frame order.

This project models that file (`app/data.py`) in six modules:

- `Outcomes`: the errors the code raises (`KeyError`, a missing file, `IndexError`, and the `ValueError` of an empty `pd.concat`) and a `Result` type.
- `FileNames`: `get_file_name`. Python's `str(int)` and `str.zfill` are written out, sign included. Also a parser that reads a frame index back out of a file name.
- `Variables`: `get_variables_idx`. It is a method: a loop builds the dict from the labels (a later duplicate overwrites an earlier one). Then it pops `position` and loops over `x`, `y`, `z`. The method is proved against the parsed-label function `LabelIndex` and the relation `Expanded`.
- `Timeline`: `get_time`, the list `i * interval` for `i` in `range(frames)`.
- `CellIds`: the mask `df["ID"].isin(cells[0])` over rows `0 .. max_cell_num-1`. It also defines the rank of a selected row (its position in the assigned column). It says exactly when the masked, positional assignment `df.loc[mask, variable] = cells[var_idx]` has matching lengths.
- `Extraction`: `extract_data`. The frame's `DataFrame` is an `array` of rows (`map<string, real>`, column to value). The code's steps each become a method that changes that array in place:
  - the zero fill;
  - `df["ID"] = df.index`;
  - the mask;
  - the loop of masked column assignments;
  - `df["time"] = time_value`.

  These methods are proved against the closed-form block `Block`. The frame loop (`ExtractData`) is proved against `Table`: the concatenation of the blocks, the error for the first missing file, or `pd.concat`'s `ValueError` when there is no frame. The output directory is a map from file name to matrix, looked up under `get_file_name(i)`. `get_max_cell_num` is `MaxCellNum`.

Where the code and its description disagree, the model follows the code:
- **Row count.** The rows per frame are the cell count of the last frame (`app/data.py:22-25`), not the largest cell ID plus one.
- **Padding rows.** A padding row holds its own index in `ID`, because `df["ID"] = df.index` runs before the masked assignments. When PhysiCell's `ID` label (row 0) is among the attributes, listed rows get `ID` from the matrix. So `ID` equals the row index only when the IDs are ascending (`Extraction.IdColumnRow`).
- **Index uniqueness.** The index map is not guaranteed to hold distinct indices. `Variables.ExpandedInjective` gives the condition under which it does.
- **File-name suffix.** The docstring's suffix `_cells.mat` contradicts the returned `_cells_physicell.mat`; see Findings.

## Model

| member | source | states |
|---|---|---|
| `FileNames.FileNameLayout` | app/data.py:19 | for a frame index the name is `output`, then the decimal index left-padded with `0` to 8 characters, then `_cells_physicell.mat` |
| `FileNames.NegativeFileNameLayout` | app/data.py:19 | for a negative index (frame -1 when no frame was counted) the `-` comes first and the zeros go between it and the digits |
| `FileNames.FileNameLength` | app/data.py:19 | the name is 6 + max(8, len(str(time))) + 20 characters long |
| `FileNames.ZFillNonNegative` | app/data.py:19 | `zfill(8)` of a non-negative index's digits is `8 - len` zeros (none if longer) followed by the digits |
| `FileNames.ZFillNegative` | app/data.py:19 | `zfill(8)` of a negative index keeps the `-` first and puts the zeros between it and the digits |
| `FileNames.NatToDecimalDigits` | app/data.py:19 | `str(n)` is a non-empty string of digits whose value is `n` and which has no leading zero unless `n` is 0 |
| `FileNames.FileNameRoundTrip` | app/data.py:19 | stripping the prefix and suffix and reading the rest as an integer gives back the index, for every integer index |
| `FileNames.FileNameInjective` | app/data.py:19 | distinct frame indices give distinct file names |
| `FileNames.FileNameStripsToDecimal` | app/data.py:19 | for a frame index, removing the prefix, the suffix and the padding zeros leaves exactly `str(time)` |
| `FileNames.FileNameOfFrameZero` | app/data.py:14-15 | `get_file_name(0)` is `output00000000_cells_physicell.mat` |
| `FileNames.FileNameOfFrameTwenty` | app/data.py:16-17 | `get_file_name(20)` is `output00000020_cells_physicell.mat` |
| `FileNames.DocstringDisagrees` | app/data.py:14-17 | the docstring's `_cells.mat` name differs from the returned name for every index |
| `Variables.VariablesIdx` | app/data.py:28-39 | fails with `KeyError('position')` exactly when no label is named `position`; otherwise the map has no `position` key, maps `position_x/y/z` to p, p+1, p+2 (p the parsed `position` index), and keeps every other parsed name's index |
| `Variables.ParseLabels` | app/data.py:32-33 | the dict comprehension's loop yields the parsed map `LabelIndex`, a later label overwriting an earlier one |
| `Variables.SplitPosition` | app/data.py:36-37 | the axis loop adds exactly `position_x/y/z` with the position row and the two after it, and keeps every other entry |
| `Variables.LabelIndexKeys` | app/data.py:32-33 | a name is a key of the parsed dict exactly when some label carries it |
| `Variables.LabelIndexLastWins` | app/data.py:32-33 | a name that appears several times gets the index of its last label |
| `Variables.ExpandedIsUnique` | app/data.py:35-37 | the rewrite's outcome is determined by the parsed dict |
| `Variables.ExpandedInjective` | app/data.py:35-37 | distinct parsed indices stay distinct after the rewrite when no other label sits at p+1 or p+2 |
| `Timeline.TimesAt` | app/data.py:54 | the time axis has one entry per frame, entry `i` is `i * interval`, consecutive entries differ by `interval` |
| `Timeline.TimesStrictlyIncreasing` | app/data.py:54 | with a positive interval the time axis strictly increases |
| `Timeline.TimesExtend` | app/data.py:54 | one more frame appends its time and leaves the earlier times unchanged |
| `CellIds.MaskCountMatchesIff` | app/data.py:74-76 | the mask selects at most as many rows as there are IDs, and exactly as many (the length the positional assignment needs) iff every ID is an integer in `[0, max_cell_num)` and no ID repeats |
| `CellIds.RankBelowCount` | app/data.py:76 | with valid IDs, a selected row's position in the assigned column exists |
| `CellIds.RankOfAscendingId` | app/data.py:74-76 | with valid ascending IDs, the row named by the `j`-th ID has rank `j`, so it gets the `j`-th cell's values |
| `CellIds.FullFrameHasNoPadding` | app/data.py:22-25 | when the row count equals the frame's cell count and the IDs are valid, every row is selected |
| `CellIds.AppendCount` | app/data.py:74 | one more ID selects one more row exactly when it names a row not named before |
| `Extraction.AssignColumn` | app/data.py:73 | `df[column] = values` sets that column of every row to the row's value and changes nothing else |
| `Extraction.AssignMasked` | app/data.py:76 | `df.loc[mask, column] = values` gives the selected rows, in row order, the values in order, and leaves the other rows unchanged |
| `Extraction.SelectRows` | app/data.py:74 | the mask read from the `ID` column is the set of row indices listed in `cells[0]` |
| `Extraction.AssignAttributes` | app/data.py:75-76 | after the loop over the attribute columns every row is the fully assigned row, whatever order the columns are visited in |
| `Extraction.ExtractFrame` | app/data.py:66-78 | the frame loop's body yields exactly the frame's block `Block` |
| `Extraction.ExtractData` | app/data.py:62-82 | the frame loop and the concatenation yield exactly `Table`: the blocks of all frames in order, the error for the first missing file, or `pd.concat`'s `ValueError` when there is no frame |
| `Extraction.LoadNext` | app/data.py:64-80 | once frames `0 .. i-1` have loaded and frame `i`'s file exists, the loop loads frame `i` and appends its block |
| `Extraction.BlocksOkIff` | app/data.py:64-66 | the first `n` frames load exactly when all their files exist |
| `Extraction.BlocksInOrder` | app/data.py:64-80 | when they load there is one block per frame, the `i`-th built from frame `i`'s file and time |
| `Extraction.BlockAt` | app/data.py:64-80 | block `i` of the first `n` loaded frames is built from frame `i`'s file and time |
| `Extraction.BlocksFirstMissing` | app/data.py:65-66 | when they do not, the error names the first missing frame file |
| `Extraction.ExtractionFailsIff` | app/data.py:64-82 | `extract_data` succeeds iff there is at least one frame and every frame's file exists; with no frame it raises `ValueError` (empty `pd.concat`), otherwise it fails on the first missing file |
| `Extraction.TableLength` | app/data.py:67-70 | the table has `frames * max_cell_num` rows |
| `Extraction.TableRow` | app/data.py:80-82 | row `i * max_cell_num + k` of the table is row `k` of frame `i`'s block |
| `Extraction.TableTimeColumn` | app/data.py:78-82 | row `i * max_cell_num + k`'s `time` is the time of frame `i` |
| `Extraction.TableIdColumn` | app/data.py:73-82 | row `i * max_cell_num + k`'s `ID` is `k` when frame `i`'s `ID` column is the row index |
| `Extraction.TableTimeIsFrameTimesInterval` | app/data.py:54 | with `get_time`'s axis, row `i * max_cell_num + k` is stamped `i * interval` |
| `Extraction.BlockShape` | app/data.py:67-78 | a block has `max_cell_num` rows, each with the attribute columns plus `ID` and `time`, and `time` is the frame's time |
| `Extraction.PaddingRow` | app/data.py:67-76 | a row whose ID the frame does not list has 0.0 in every attribute column and its own index in `ID` |
| `Extraction.ListedRow` | app/data.py:74-76 | a listed row takes, in each attribute column, that attribute's matrix entry at the row's rank among listed rows |
| `Extraction.OwnCellRow` | app/data.py:74-76 | with ascending IDs, every cell's attribute values land on the row of its own ID |
| `Extraction.IdColumnRow` | app/data.py:73-76 | the `ID` column is the row index when no label is `ID`, or when `ID` is matrix row 0 and the IDs ascend |
| `Extraction.MaxCellNumOutcome` | app/data.py:22-25 | `get_max_cell_num` raises `FileNotFoundError` exactly when frame `frames - 1`'s file is missing, `IndexError` exactly when its matrix has no rows, and otherwise returns that file's number of cell IDs |
| `Extraction.MaxCellNumWithoutFrames` | app/data.py:23-25 | with no frame counted it loads `output-0000001_cells_physicell.mat` and fails when that file is absent |
| `FileNames.FileNameOfFrameMinusOne` | app/data.py:19 | `get_file_name(-1)` is `output-0000001_cells_physicell.mat`: `zfill` keeps the sign first |
| `Extraction.LastFrameHasNoPadding` | app/data.py:22-25 | with `max_cell_num` taken from the last frame, that frame's block has no padding row |

## Left out

- Reading `initial.xml` (`ElementTree`) and the frame files (`scipy.io.loadmat`) is foreign I/O. The parsed labels are a sequence of `Label` values. The directory is a map from file name to `cells` matrix; a name missing from the map is the load's `FileNotFoundError`.
- A missing or malformed `initial.xml` (`ElementTree.parse` raises at line 30), a document without the `labels` element (`tree.find(stem)` returns `None` and `.findall` raises `AttributeError` at line 33) and a non-integer `index` attribute (`int` raises `ValueError`) are left out as parser errors. A label without an `index` attribute raises `KeyError('index')` at line 32; it is left out because `Label.index` is always present.
- A label without text is left out: `label.text` is then `None`, which becomes a `None` key of the index map and a `None` column of every block without any error. `Label.name` is a string, so the model cannot represent a missing name.
- `processing.get_cell_file_num` from physicool is an external call. The frame count is a parameter.
- `get_simulation_time_interval` reads and converts a float from `output00000001.xml` (line 44). The interval is a parameter, so the model drops the `FileNotFoundError` this read raises when that file is missing, which is normally the case for a run with fewer than two saved frames.
- Lines 59-61 of `extract_data` call `get_time`, `get_variables_idx` and `get_max_cell_num`. `ExtractData` takes their three results as parameters (`Timeline.Times`, `Variables.VariablesIdx`, `Extraction.MaxCellNum`). So with no frame, the failure the model reports is the `ValueError` of the empty `pd.concat` (line 82), and with one frame the model returns a table. In the program, line 59 runs first: `get_time` reads `output00000001.xml` (lines 53 and 44), so a run with fewer than two saved frames normally fails there. Next, line 61 looks up frame -1's file when no frame was counted (`Extraction.MaxCellNumWithoutFrames`).
- Floating point is modelled as `real`, so `frame * time_interval` and the stored values are exact. The integer `ID` column that becomes float after assignment is modelled as one numeric type.
- Column order is not modelled: the index map is a `map`, not an insertion-ordered dict, so the model does not fix the order of the table's columns. Row order is modelled.
- `Extraction.ExtractFrame`: does not model the `ValueError` pandas raises when the mask selects a different number of rows than the frame has cells. `FrameOk` requires the lengths to match; `CellIds.MaskCountMatchesIff` proves that this is exactly valid, distinct, in-range IDs.
- `Extraction.ExtractData`: requires `ExtractFrame`'s conditions (`FramesOk`) only of the frames the loop loads, that is, frames whose file and all earlier frames' files exist. Frames after the first missing file may hold anything; the model then fails on that missing file as the program does.
- `Extraction.ExtractFrame`: does not model the `IndexError` for an attribute row outside the matrix. It does not model Python's wrap-around for a negative row index either. `FrameOk` requires every attribute row to lie in `0 .. len(cells)-1`.
- The Dash pages, the startup extraction and CSV write in app/app.py, and the unused SQLAlchemy demo in app/models.py are left out: they are UI wiring, file output and dead code. The pages' own unpadded `extract_data` helpers are left out too; they stamp the frame number as the time.

## Findings

| source | as written | input that shows it | evidently intended | confidence | as-written member | corrected member |
|---|---|---|---|---|---|---|
| app/data.py:14-17 | the docstring examples promise `output00000000_cells.mat` and `output00000020_cells.mat` | `get_file_name(0)` | the examples should end in `_cells_physicell.mat`, which line 19 returns and which app/pages/single-time.py:52 and app/pages/animations.py:33 also build | high; not executed | `FileNames.DocstringDisagrees` | `FileNames.FileNameOfFrameZero` |
