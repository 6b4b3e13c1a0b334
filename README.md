# MeshView core in Dafny

MeshView is a Streamlit app that turns a table of grid points into a
choropleth of quadrilateral mesh cells. Each input row is a point with
columns I, J, X, Y and a value. This project models the logic that
decides which cells are drawn and how they are built:

- the `Meshs` class of pkg/model.py: its constructor and `set_gdf`, which
  sorts the points by (I, J), finds each point's three forward corners
  by fixed row offsets (+1, +cnt_j+1, +cnt_j), drops the last I row and
  the last J column, and emits one four-vertex ring per remaining point;
- the dummy-value filter shared by the map and the plot, the "I, J"
  location labels of the map, the `DRIVER2EXT` table and the member names
  of the three zip exporters;
- the logic in meshview.py's `main()` around it:
  - the default table of step 2 and the max_i/max_j bounds;
  - the (I, J) check on an uploaded table;
  - the colour-range rule of step 3;
- the three session-state callbacks of meshview.py.

The offset construction is only correct when the sorted table is a
dense, gap-free, row-major enumeration of a rectangle, and `set_gdf`
does not check this. The model states that condition as
`GridDense.RowMajor` and proves, under it:

- which neighbours make up every ring;
- that no kept row reaches past the end of the table;
- that there are (cnt_i − 1)·(cnt_j − 1) cells.

It then proves that the generated default table meets the condition.
It also proves that any upload the intended (I, J) check accepts meets
it.

Modules (one per file):

| file | module | contents |
|---|---|---|
| common.dfy | `Common` | `Option` |
| pyint.dfy | `PyInt` | Python's `int()` on a string and `str()` of an int |
| grid.dfy | `Grid` | `set_gdf`'s derivation as sequence functions, and its properties on any input |
| grid_dense.dfy | `GridDense` | the row-major density condition and what the offsets give under it |
| model.dfy | `Model` | the `Meshs` class, the dummy filter, labels, `DRIVER2EXT`, the zip exporters |
| meshview.dfy | `MeshView` | the generator, the upload check, the colour range |
| session.dfy | `Session` | the three callbacks, as methods of a `SessionState` class over a key/value map |

Modelling conventions:

- X, Y and the values are `real`. A coordinate that a `shift` pushes
  past the end of the table (NaN in pandas) is `None`.
- pandas' sort on two columns is stable. It is modelled as a stable
  insertion sort by (I, J).
- A Python exception that a callback lets escape is an `Outcome` with
  `ok == false`. That outcome carries the state the callback had already
  written.
- Session tables are maps from (row label, column name) to value.
- Widget inputs are parameters of the functions that use them. These are
  cnt_i, cnt_j, ij_start, the dummy value, the auto toggle and the
  manual bounds.

## Model

| member | source | states |
|---|---|---|
| Grid.SortByIJ | pkg/model.py:130 | The sorted table has the input's length and the same rows with the same multiplicities. |
| Grid.SortByIJSorted | pkg/model.py:130 | The sorted table is in ascending (I, J) order. |
| Grid.MaxI | pkg/model.py:128 | max_i is an I value of some row and no row's I exceeds it. |
| Grid.MaxJ | pkg/model.py:129 | max_j is a J value of some row and no row's J exceeds it. |
| Grid.WithCorners | pkg/model.py:131-133 | After the three shifts, row k carries its own point and the X/Y of rows k+1, k+cnt_j+1 and k+cnt_j. Each corner is missing exactly when that row is past the end. |
| Grid.KeepOwnersExactly | pkg/model.py:135 | The filter keeps exactly the rows with I ≠ max_i and J ≠ max_j. |
| Grid.KeepOwnersCount | pkg/model.py:135 | Every owning row is kept as many times as it occurs in the table, and no other row is kept. |
| Grid.MeshCellRings | pkg/model.py:130-145 | On any non-empty table, every cell is the cell of an owning row m of the sorted table. It carries that row's I, J and value, and its ring is the row itself, then rows m+1, m+cnt_j+1 and m+cnt_j, with a missing corner past the end. |
| Grid.MeshCellsSorted | pkg/model.py:130-145 | The cells come out in ascending (I, J) order. |
| Grid.MeshCellsOwned | pkg/model.py:127-145 | On any table, every cell belongs to an input point with I ≠ max_i and J ≠ max_j and carries that point's I, J and value. |
| Grid.MeshCellsCover | pkg/model.py:127-145 | On any non-empty table, every input point with I ≠ max_i and J ≠ max_j has a cell. |
| GridDense.OffsetNeighbours | pkg/model.py:130-135 | On a dense row-major grid, every kept row k has rows k+1, k+cnt_j and k+cnt_j+1 inside the table. Those rows are (i, j+1), (i+1, j) and (i+1, j+1). |
| GridDense.DenseDistinctJ | pkg/model.py:127 | On a dense cnt_i × cnt_j grid, `nunique` of J is cnt_j. |
| GridDense.DenseMax | pkg/model.py:128-129 | On a dense grid starting at (si, sj), max_i = si + cnt_i − 1 and max_j = sj + cnt_j − 1. |
| GridDense.DenseKept | pkg/model.py:127-135 | On a dense grid, the kept rows are the first cnt_j − 1 rows of each of the first cnt_i − 1 I rows. |
| GridDense.DenseMeshCells | pkg/model.py:127-145 | On a dense grid there are (cnt_i − 1)·(cnt_j − 1) cells, laid out row-major over the interior points. |
| GridDense.RingAt | pkg/model.py:131-142 | The ring built at a kept row of a dense grid has no missing corner. It is the X/Y of the input points (I, J), (I, J+1), (I+1, J+1), (I+1, J) in that order, and the cell has the value of (I, J). |
| GridDense.DenseCellCorners | pkg/model.py:127-145 | On a dense grid, cell number q·(cnt_j − 1) + t is the cell of (si + q, sj + t), ringed by its four neighbours. |
| Model.Meshs.constructor | pkg/model.py:108-115 | The constructor records the column names (defaults I, J, X, Y), the value column and the EPSG code, and sets the frame from the input table. |
| Model.Meshs.SetGdf | pkg/model.py:117-149 | The frame becomes the cells of the new table, with columns I, J, value and geometry and the CRS set to `epsg`. No other field changes. |
| Model.Meshs.MapLocations | pkg/model.py:188-197 | The map draws the dummy-filtered cells, each labelled "I, J". The frame is not changed. |
| Model.Meshs.PlotCells | pkg/model.py:259-262 | The plot draws the dummy-filtered cells. The frame is not changed. |
| Model.DropValue | pkg/model.py:189 | A cell is kept if and only if it is a cell of the frame whose value is not the dummy. |
| Model.FilterDummy | pkg/model.py:188-191 | With no dummy every cell is kept in order. With a dummy d exactly the cells whose value ≠ d are kept. |
| Model.DropValueAppend | pkg/model.py:189 | The filter works row by row, so it keeps the original order. |
| Model.DropValueIdempotent | pkg/model.py:189 | Filtering twice by the same dummy is filtering once. |
| Model.DropValueAbsent | pkg/model.py:189 | A frame with no dummy-valued cell is kept whole. |
| Model.LabelInjective | pkg/model.py:193-196 | Distinct (I, J) pairs get distinct "I, J" labels, so the map's index is unique. |
| Model.DriverExtInjective | pkg/model.py:30-34 | The three GIS drivers have three different extensions. |
| Model.BasenameJoin | pkg/model.py:313-317 | The base name of `os.path.join(dir, name)` is name, for a name without '/'. |
| Model.ZipArchive.Add | pkg/model.py:315-318 | Writing a member appends its name to the archive's member list. |
| Model.ZipPlot | pkg/model.py:303-320 | `zip_plot` writes a single member, the base name of `<tmpdir>/plot.<ext>`. |
| Model.ZipPlotMember | pkg/model.py:313-317 | That member is `plot.<ext>`. |
| Model.ZipMap | pkg/model.py:338-353 | `zip_map` writes a single member, `map.html`. |
| Model.ZipGis | pkg/model.py:374-405 | `zip_gis` writes, in glob order, the base name of every path the `mesh.*` glob finds in the directory `to_file` wrote into. |
| Model.ZipGisMembers | pkg/model.py:395-403 | The members are exactly the `mesh.*` entries of the directory, in order. |
| Model.MeshEntriesAreEntries | pkg/model.py:395-397 | A name is a member exactly when it is a directory entry whose name starts with `mesh.`. |
| Model.ZipGisKeepsTarget | pkg/model.py:384-403 | Once `to_file` has written its target `mesh.<ext>` into the directory, that file is a member of the archive. |
| PyInt.TrimLeftDrops | meshview.py:60 | Leading-space skipping drops only whitespace, and what is left does not start with whitespace. |
| PyInt.TrimRightDrops | meshview.py:60 | Trailing-space skipping drops only whitespace, and what is left does not end with whitespace. |
| PyInt.NatToString | pkg/model.py:194 | `str(n)` of a natural number is a non-empty run of decimal digits. |
| PyInt.NatToStringValue | pkg/model.py:194 | The digits of `str(n)` read back as n. |
| PyInt.ParseRendered | meshview.py:60 | `int(str(n)) == n` for every int n of at most 4300 digits, the conversion limit. |
| PyInt.RenderInjective | pkg/model.py:194 | Different ints render to different strings. |
| PyInt.ParsePadded | meshview.py:60 | `int()` ignores the whitespace it skips before and after the numeral: ASCII tab to carriage return, space, and the non-ASCII `str.isspace` characters, but not U+001C to U+001F. |
| PyInt.ParseAccepted | meshview.py:59-62 | `int()` accepts a string exactly when, stripped, it is an optional sign followed by digits and underscores that ends in a digit, where each underscore stands between two digits and there are at most 4300 digits. |
| MeshView.RepeatAt | meshview.py:172-173 | A list repeated `times` times has times·len elements. Element q·len + r is the list's element r. |
| MeshView.SortInts | meshview.py:172 | `sorted` keeps the length and the elements with their multiplicities. |
| MeshView.SortIntsSorted | meshview.py:172 | `sorted` gives an ascending list. |
| MeshView.SortedIntsUnique | meshview.py:172 | Two ascending lists with the same elements are equal, so `sorted` has a single possible result. |
| MeshView.BlocksCount | meshview.py:172 | Each I value repeated cnt_j times in a block has the elements of the I range repeated cnt_j times. |
| MeshView.IColumnIsBlocks | meshview.py:172 | The I column is cnt_i blocks of cnt_j equal values, ascending from ij_start. |
| MeshView.BlocksShape | meshview.py:172 | The block list has cnt_i·cnt_j elements in ascending order, and element q·cnt_j + r is ij_start + q. |
| MeshView.GenerateRowMajor | meshview.py:170-177 | The generated table is the dense row-major cnt_i × cnt_j grid from (ij_start, ij_start). Row q·cnt_j + r is (ij_start + q, ij_start + r), and X, Y and the value are 0.0 in every row. |
| MeshView.RowMajorSorted | meshview.py:170-173 | A row-major table is sorted by (I, J). |
| MeshView.SortSortedIdentity | pkg/model.py:130 | Sorting an already sorted table leaves it as it is. |
| MeshView.DenseMaxIndex | meshview.py:157-158 | On the generated table, max_i = cnt_i + ij_start − 1 and max_j = cnt_j + ij_start − 1 are its largest I and J. |
| MeshView.GenerateFeedsSetGdf | meshview.py:170-179 | The generated table meets `set_gdf`'s density condition. Sorting leaves it unchanged. Its largest I and J are max_i and max_j, and it yields (cnt_i − 1)·(cnt_j − 1) cells. |
| MeshView.AcceptedAsWrittenIsInOrder | meshview.py:317-322 | As written, the check accepts an upload only when its rows are already in the manual table's (I, J) order. |
| MeshView.SwappedUploadRejected | meshview.py:317-322 | A correct 2 × 2 upload with its first two rows swapped is rejected as written and accepted by the intended check. |
| MeshView.UploadCheckIgnoresOrder | meshview.py:317-322 | The intended check accepts an upload exactly when its (I, J) pairs are the manual table's with the same multiplicities, in any row order. |
| MeshView.ReorderedUploadAccepted | meshview.py:317-322 | The intended check against the generated table accepts exactly the rearrangements of its (I, J) pairs. |
| MeshView.GeneratedAccepted | meshview.py:317-322 | The generated table passes the intended check against itself. |
| MeshView.AcceptedUploadIsDense | meshview.py:317-329 | An upload the intended check accepts, once sorted, is the dense row-major grid. So the table stored for `set_gdf` meets its density condition. |
| MeshView.Candidates | meshview.py:402-403 | The range candidates are exactly the values of rows with I ≠ max_i and J ≠ max_j. |
| MeshView.DropReal | meshview.py:404 | Dropping the dummy keeps exactly the values that differ from it. |
| MeshView.DropDummy | meshview.py:404 | With no dummy all values stay. With a dummy d exactly the values ≠ d stay. |
| MeshView.SeqMin | meshview.py:408 | `min()` is an element no larger than any element. |
| MeshView.SeqMax | meshview.py:407 | `max()` is an element no smaller than any element. |
| MeshView.ChooseRange | meshview.py:406-428 | A range is chosen only when min < max, and then the auto flag is kept. No range forces auto on. In auto mode with candidates, a range is chosen exactly when the candidates are not all equal, and it is their smallest and largest value. In manual mode it is the user's bounds when min < max. No candidates in auto mode give no range, with auto on. |
| MeshView.NonZeroDummyAgrees | meshview.py:404 | For any dummy other than 0.0 the truthiness test drops exactly what the intended filter drops. |
| MeshView.ZeroDummyWidensRange | meshview.py:402-428 | With dummy 0.0 the rule as written gives range (0.0, 2.0) on a grid whose drawn cells hold 1.0 and 2.0, while the intended rule gives (1.0, 2.0). |
| MeshView.CandidatesSnoc | meshview.py:403 | Appending a row adds its value to the candidates exactly when the row owns a cell. |
| MeshView.RangeValuesAreDrawnValues | meshview.py:402-404 | Taking max_i and max_j as the table's own largest I and J, the candidates after the intended dummy filter are exactly the values of the cells the map draws, with the same dummy filter. |
| MeshView.StoredRangeValuesAreDrawnValues | meshview.py:361-362 | On the generated table or an accepted upload, the closed-form max_i and max_j are the table's own maxima. So the intended range values, computed with the closed forms, are exactly the values of the drawn cells. |
| Session.AppliedCells | meshview.py:23-26 | Every edited (row, column) holds its edited value, and every other cell keeps its old value. |
| Session.AppliedNothing | meshview.py:23-26 | No edits leave the table as it was. |
| Session.AppliedIdempotent | meshview.py:23-26 | Applying the same edits twice is applying them once. |
| Session.ApplyEditsFrame | meshview.py:23-26 | Only the target key can change. The callback fails exactly when the editor key is missing or holds no editor state, or when there are cell edits and the target is not a table. Failure leaves the state as it was. |
| Session.ApplyEditsIdempotent | meshview.py:23-26 | Running the callback a second time changes nothing more. |
| Session.SessionState.ApplyEditedRows | meshview.py:23-26 | The nested loop leaves exactly the state and outcome of applying all edits at once. |
| Session.SetStepMovesTable | meshview.py:44-47 | `step` is the argument and `df_pt` takes the key's old value. The key is removed and every other key is unchanged. |
| Session.SetStepOnly | meshview.py:44-45 | Without a key only `step` changes, so `df_pt` is untouched. |
| Session.SetStepMissingKey | meshview.py:44-46 | A missing key raises after `step` has already been set. |
| Session.SetStepSelfDeletes | meshview.py:46-47 | Passing `df_pt` as the key deletes `df_pt`. |
| Session.SessionState.SetStepDfCallback | meshview.py:44-47 | The callback leaves exactly the state and outcome of the step function. |
| Session.SetEpsgFrame | meshview.py:54-62 | Only `epsg` changes, and it is None or an int afterwards. An exception leaves the state as it was. |
| Session.SetEpsgReadsCode | meshview.py:59-60 | Typing the decimal form of a code of at most 4300 digits sets `epsg` to that code. This holds with any whitespace `int()` skips around it. |
| Session.SetEpsgNeedsNumeral | meshview.py:59-62 | `epsg` becomes an int exactly when the stripped text is a numeral `int()` accepts: an optional sign, then digits and single underscores between digits, at most 4300 digits. Anything else gives None. |
| Session.SetEpsgDigitLimit | meshview.py:59-62 | A run of more than 4300 digits sets `epsg` to None, because `int()` raises ValueError. |
| Session.SetEpsgIdempotent | meshview.py:54-62 | Running the callback twice is running it once. |
| Session.SessionState.SetEpsgCallback | meshview.py:54-62 | The callback leaves exactly the state and outcome of the EPSG function. |

## Left out

- Streamlit UI is not modelled. That covers the page layout, widgets, tabs, buttons, `st.rerun`, fragments, messages and download buttons. The model only computes the value that decides whether the confirm button is enabled (meshview.py:348).
- The error texts for a wrong row count or wrong (I, J) pairs are not modelled (meshview.py:333-336). They are display only.
- pkg/view.py is not part of this model. It is display text and a pyproj CRS lookup.
- Figure rendering in `choropleth_map` and `plot` is not modelled. That covers Plotly and Matplotlib, colour scales, tiles and the map-centre arithmetic.
- CRS reprojection with `to_crs(4326)` is not modelled. It is floating-point geodesy in a foreign library.
- File bytes are not modelled: `to_file`, `savefig`, `to_html`, ZIP compression and the temporary directory. The directory listing that `to_file` leaves is a parameter of `Model.ZipGis`. It stands for the driver and the extension, which act only through what `to_file` writes.
- CSV parsing with `read_csv` (meshview.py:299-313) is not modelled. The upload is taken as an already parsed table.
- The colour and tile lists built by library introspection are not modelled.
- Floating point is not modelled. X, Y and the values are exact reals, so NaN and its comparisons, and pandas skipping NaN in `max`/`min`, are outside the model. Shapely polygon validity is outside it too.
- `Grid.MeshCells` gives no cells on an empty table. That is what pandas yields when max is NaN; the NaN is not modelled.
- The manual-range widgets default to the data's max and min. That default is not modelled: `MeshView.ChooseRange` takes the user's bounds as parameters.
- Session: a `.loc` write to a new row or column adds just that cell. pandas fills the rest of a new row or column with NaN, and here those cells are absent.
- Session: the editor state's `added_rows` and `deleted_rows` are ignored, as the callback ignores them.
- Session: column dtypes and dtype coercion on write are not modelled.
- PyInt.MaxStrDigits: fixed at Python's default of 4300 digits. Changing it with `sys.set_int_max_str_digits` or the PYTHONINTMAXSTRDIGITS environment variable is not modelled.
- PyInt.IntToString: `str()` of an int with more than 4300 digits raises ValueError. The model renders every int, so the map labels of `Model.Meshs.MapLocations` are only faithful for I and J below that size.
- PyInt.ParseInt: accepts only ASCII digits 0-9. Python's `int()` also accepts other Unicode decimal digits, which this model rejects.
- The many-cell warning in pkg/view.py is not part of this model.

## Findings

| source | as written | input that shows it | evidently intended | confidence | as-written member | corrected member |
|---|---|---|---|---|---|---|
| meshview.py:317-322 | The manual table is compared with the sorted upload. pandas only compares frames with identical labels. The sorted upload keeps its original row labels, so any upload not already in (I, J) order raises ValueError and is rejected. | The 2 × 2 grid from 0 with its first two rows swapped: (0,1), (0,0), (1,0), (1,1). | Accept any row order whose sorted (I, J) pairs match the manual table. | high; not executed | MeshView.SwappedUploadRejected | MeshView.UploadCheckIgnoresOrder |
| meshview.py:404 | The dummy is dropped from the range only when it is truthy, so a dummy of 0.0 still widens the colour range. The map and the plot hide 0.0 cells, because they test `is not None` (pkg/model.py:188, 259). | A 4 × 2 grid whose three owner cells hold 0.0, 1.0 and 2.0, with dummy 0.0: the range is (0.0, 2.0), while the map and the plot draw only the cells holding 1.0 and 2.0. | Exclude the dummy whenever one is given, as the map and the plot do. | medium; not executed | MeshView.ZeroDummyWidensRange | MeshView.RangeValuesAreDrawnValues |
