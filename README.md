# mapcat core, modelled in Dafny

mapcat is the Simons Observatory map catalog. This project models the parts of it
that compute things, as opposed to those that only declare tables:

- **Sky-coverage tiler** (`get_sky_coverage`, in both `mapcat/toolkit/update_sky_coverage.py`
  and `mapcat/database/tools.py`). It snaps a map's bounding box outward to the 10 degree grid,
  walks the tile origins with RA as the outer loop and Dec as the inner loop, and keeps the tiles
  whose sub-box of the time raster has a non-zero pixel. It then returns `(ra/10, dec/10 + 9)`
  index pairs.
- **Coverage records and the reconciler** (`coverage_from_depthone`, `resolve_tmap`, `core`).
  The reconciler finds every depth-1 map that has no `depth_one_sky_coverage` row, tiles it, and
  stores one `(map_id, x, y)` record per tile in a single commit.
- **`SkyCoverageTable`**. This is the record, its composite key, the region each tile index
  denotes, and the cascade on map deletion.
- **Processing-status reset** (`reset.py` `core`). It builds the select statement from the
  optional filters, then deletes the selected entries or sets their status.
- **Obs-list partition** (`maps_containing_obs`, `build_obslists` in `mapmaking.py`).
- **ACT ingest string handling** (`act.py`):
  - `extract_string`;
  - the two layouts of `parse_info_file`;
  - the suffix scheme of `parse_filenames`;
  - the names, paths and TOD ctimes of `create_objects`;
  - the base derivation and loop of `glob`.

**Layout.** There is one Dafny module per source file, plus three shared modules:

| module | contents |
|---|---|
| `Common` | `Option`, the raised exceptions as an `Error` datatype, `Result` |
| `Text` | the Python string operations used: `str.replace`, `str.split` on one character, slicing, `float()` on a digit string |
| `Paths` | `pathlib` paths as an absolute flag plus a component list |
| `Catalog` | the catalog rows the code reads |
| `Tiling` | the tiling rule as functions, and its properties |

**Shape of the model.**
- The two `get_sky_coverage` loops are a method (`DatabaseTools.GetSkyCoverage`).
  The toolkit version calls it with the raster's own box. It is proved equal to the
  specification function `Tiling.CoverageOf`.
- The reconciler and the reset are methods of classes holding the tables.
- `build_obslists` and `glob` are loops proved against prefix-peeling specification functions.

**Units and abstractions.**
- Degrees are exact reals.
- The raster is abstracted as a predicate, "the raster cut to this box has a non-zero pixel".
- File existence, the glob result, the `_info.hdf` datasets and map reading are inputs.

## Model

| member | source | states |
|---|---|---|
| SkyCoverage.TileContaining | mapcat/database/sky_coverage.py:25-27 | the tile computed for a sky position has that position in its region (x covers RA [10x, 10x+10), y covers Dec [10y-90, 10y-80)), and for RA in [0,360), Dec in [-90,90) it lies in the documented index space |
| SkyCoverage.TileContainingIsUnique | mapcat/database/sky_coverage.py:25-27 | the tiles partition the sky: a position lies in a tile iff it is the computed one |
| SkyCoverage.RecordsFor | mapcat/database/tools.py:77-80 | exactly one record per tile, in tile order, each carrying the given map_id and that tile's x and y |
| SkyCoverage.RecordsForKeysUnique | mapcat/database/sky_coverage.py:43 | records built from distinct tiles never collide on the (map_id, x, y) key |
| SkyCoverage.RecordsForMembers | mapcat/toolkit/update_sky_coverage.py:95-98 | a record is among those built iff it carries the map's id and its tile is in the list |
| Tiling.FloorToGrid | mapcat/toolkit/update_sky_coverage.py:49-52 | floor snapping gives a multiple of 10 at most 10 below the input and not above it |
| Tiling.CeilToGrid | mapcat/toolkit/update_sky_coverage.py:49-52 | ceil snapping gives a multiple of 10 at most 10 above the input and not below it |
| Tiling.FloorToGridMonotone | mapcat/database/tools.py:30-33 | floor snapping is monotone |
| Tiling.CeilToGridMonotone | mapcat/database/tools.py:30-33 | ceil snapping is monotone |
| Tiling.GridValueIsFixed | mapcat/toolkit/update_sky_coverage.py:49-52 | a multiple of 10 snaps to itself in both directions |
| Tiling.ArangeValues | mapcat/toolkit/update_sky_coverage.py:54-55 | np.arange(lo, hi, 10) is lo, lo+10, ... below hi, reaches within 10 of hi, and is empty when lo >= hi |
| Tiling.ArangeHas | mapcat/toolkit/update_sky_coverage.py:54-55 | v is an arange value iff lo <= v < hi and v - lo is a multiple of 10 |
| Tiling.ArangeOnGrid | mapcat/toolkit/update_sky_coverage.py:54-55 | from a grid start the origins are grid values in strictly increasing order |
| Tiling.Trunc | mapcat/toolkit/update_sky_coverage.py:70-71 | int() truncates toward zero on both signs |
| Tiling.TileAtOrigin | mapcat/toolkit/update_sky_coverage.py:62-71 | on grid origins int(ra/10), int(dec/10)+9 is exact, and the sub-box tested is exactly the emitted tile's region |
| Tiling.CandidateOrigin | mapcat/toolkit/update_sky_coverage.py:54-61 | a tile's origin is visited by the loops iff it lies on the grid in [ra_min', ra_max') x [dec_min', dec_max') |
| Tiling.CoverageMembers | mapcat/toolkit/update_sky_coverage.py:60-71 | a tile is returned iff its origin is a candidate and the raster is non-zero in its region |
| Tiling.CoverageSorted | mapcat/toolkit/update_sky_coverage.py:60-73 | the list is strictly increasing in (x, y) with x outer, so it has no duplicates |
| Tiling.EmptyRasterNoTiles | mapcat/toolkit/update_sky_coverage.py:69-71 | an all-zero raster yields no tile |
| Tiling.EmptyRangeNoTiles | mapcat/database/tools.py:35-36 | an empty snapped RA or Dec range yields no tile |
| Tiling.CoverageInIndexSpace | mapcat/database/sky_coverage.py:13-14 | a box inside RA [0,360] and Dec [-90,90] only yields tiles with 0 <= x < 36 and 0 <= y < 18 |
| Tiling.CoverageTilesContainTheirOrigin | mapcat/database/tools.py:51-52 | the index pair the tiler appends for each kept origin is the table's tile containing that origin, so the two index definitions agree |
| Tiling.SameSnapSameTiles | mapcat/database/tools.py:30-36 | boxes with the same snapped bounds yield the same list |
| Tiling.SnappedBoxSameTiles | mapcat/database/tools.py:30-36 | snapping is idempotent, and a box yields the same list as its snapped box |
| Tiling.EnlargingKeepsTiles | mapcat/database/tools.py:30-52 | with the raster fixed, enlarging the box never removes a tile |
| Tiling.NonWrappingBoxTiles | mapcat/toolkit/update_sky_coverage.py:46-71 | a concrete box over a full raster gives exactly the expected tile rectangle |
| Tiling.SeamBoxTilesAreNotWrapped | tests/test_act.py:31-34 | RA is not normalised: a box west of RA 0 gives negative x, as the expected fixture tiles show |
| DatabaseTools.ScanColumn | mapcat/database/tools.py:42-52 | the inner Dec loop appends exactly the kept tiles of one RA column to the two index lists |
| DatabaseTools.GetSkyCoverage | mapcat/database/tools.py:9-54 | the nested loops and the final zip return exactly the specified tile list for the given box |
| DatabaseTools.CoverageFromDepthOne | mapcat/database/tools.py:57-80 | it succeeds exactly when the raster reader returns a map for the stored mean_time_path (set or not); then it gives one record per tile of the box, each for the map's id, and otherwise the read failure |
| UpdateSkyCoverage.ResolveTmap | mapcat/toolkit/update_sky_coverage.py:11-26 | a missing mean_time_path is the TypeError of `/`; a relative stored path resolves below the parent with itself as the remainder, an absolute one replaces the parent |
| UpdateSkyCoverage.GetSkyCoverage | mapcat/toolkit/update_sky_coverage.py:29-73 | tiling the raster's own box gives the same list as the explicit-box tiler on tmap.box() |
| UpdateSkyCoverage.CoverageFromDepthOne | mapcat/toolkit/update_sky_coverage.py:76-98 | it succeeds iff the path resolves and reads, raises that error otherwise, and returns one record per tile for the map's id |
| UpdateSkyCoverage.AddedBelongsToIds | mapcat/toolkit/update_sky_coverage.py:119-121 | every staged record belongs to one of the maps processed |
| UpdateSkyCoverage.AddedIsFresh | mapcat/toolkit/update_sky_coverage.py:110-123 | no record staged for the uncovered maps is already stored |
| UpdateSkyCoverage.CoveredMapsUntouched | mapcat/toolkit/update_sky_coverage.py:111-118 | a map that already had rows keeps exactly those rows |
| UpdateSkyCoverage.UncoveredMapGetsItsTiles | mapcat/toolkit/update_sky_coverage.py:110-123 | a map without rows whose raster reads ends with exactly one row per returned tile |
| UpdateSkyCoverage.RerunAddsNothing | mapcat/toolkit/update_sky_coverage.py:111-121 | after a pass, exactly the maps with an empty tile list remain uncovered, and a second pass adds nothing |
| UpdateSkyCoverage.StillUncovered | mapcat/toolkit/update_sky_coverage.py:111-121 | after a pass, one map is still without rows iff it had none and its tiling returned no tile |
| UpdateSkyCoverage.CoverageStore.Core | mapcat/toolkit/update_sky_coverage.py:101-123 | it succeeds iff every uncovered map tiles; then the store gains exactly the records of the uncovered maps; on an error nothing is committed and the error is that of an uncovered map |
| UpdateSkyCoverage.CoverageStore.DeleteMap | mapcat/database/sky_coverage.py:35-40 | deleting a map removes exactly its coverage rows |
| Reset.StatusChoice | mapcat/toolkit/reset.py:100-110 | --status accepts exactly failed, completed and permafail |
| Reset.Where | mapcat/toolkit/reset.py:61 | adding a WHERE clause narrows the returned rows to those where it also holds |
| Reset.InnerJoin | mapcat/toolkit/reset.py:63-67 | the inner join drops exactly the entries without a depth-1 map |
| Reset.BuildStatement | mapcat/toolkit/reset.py:58-76 | the statement returns an entry iff every supplied filter holds (map-id list only when non-empty, inclusive time bounds through the join, from-status) |
| Reset.ProcessingTable.Reset | mapcat/toolkit/reset.py:44-87 | the table after core is the specified reset: selected rows deleted, or given the new status |
| Reset.DeleteEntries | mapcat/toolkit/reset.py:80-82 | the delete loop removes exactly the returned entries and leaves the rest unchanged |
| Reset.SetStatus | mapcat/toolkit/reset.py:83-85 | the status loop keeps every key, gives each returned entry the new status with its other columns kept, and leaves the rest unchanged |
| Reset.UnselectedUnchanged | mapcat/toolkit/reset.py:80-85 | an unselected entry stays, unchanged |
| Reset.DeleteRemovesExactlySelected | mapcat/toolkit/reset.py:80-82 | without a status exactly the selected entries disappear |
| Reset.SetStatusChangesOnlyStatus | mapcat/toolkit/reset.py:83-85 | with a status no entry disappears and a selected entry changes only its status |
| Reset.NoFiltersSelectsAll | mapcat/toolkit/reset.py:57-87 | with no filter every entry is deleted, or every entry gets the status |
| Reset.EmptyMapIdListFiltersNothing | mapcat/toolkit/reset.py:60 | an empty map-id list selects what no list selects |
| Reset.BoundsAreInclusive | mapcat/toolkit/reset.py:68-71 | a map whose ctime equals both bounds is selected |
| Reset.ResetIdempotent | mapcat/toolkit/reset.py:58-87 | running core twice with the same arguments equals running it once |
| Mapmaking.MapsContainingObs | mapcat/toolkit/mapmaking.py:14-40 | ValueError with the "No TODs" message iff no TOD has the obs_id, otherwise the map list of the first matching TOD |
| Mapmaking.SkipRow | mapcat/toolkit/mapmaking.py:31-39 | a first TOD row with another obs_id does not change the lookup |
| Mapmaking.NoMapObsMembers | mapcat/toolkit/mapmaking.py:65-68 | an obs_id is in the no-map list iff it is an input id whose map list is empty |
| Mapmaking.FirstUnknown | mapcat/toolkit/mapmaking.py:65-66 | every id before the returned index is found, and the id at it is not |
| Mapmaking.MapDictEntries | mapcat/toolkit/mapmaking.py:67-70 | the keys are the input ids with maps, each mapped to its non-empty map list |
| Mapmaking.BuildObslists | mapcat/toolkit/mapmaking.py:43-72 | it fails iff some id is unknown, with the error of the first one; otherwise it returns the specified dictionary and the no-map list in input order |
| Mapmaking.ObslistsPartition | mapcat/toolkit/mapmaking.py:65-70 | every input id lands in exactly one of the two outputs |
| Mapmaking.ExampleLookups | tests/test_mapmaking.py:208-211 | an obs linked to two maps gets both in link order, an obs without maps gets the empty list |
| Mapmaking.ExampleNoMapList | tests/test_mapmaking.py:212 | the obs without maps is the only entry of the no-map list |
| Text.ReplaceAllAbsent | mapcat/toolkit/act.py:16 | str.replace leaves a text without the pattern unchanged |
| Text.ReplaceAllRemovesChar | mapcat/toolkit/act.py:16 | replacing a character by a text without it removes every occurrence |
| Text.StripAppended | mapcat/toolkit/act.py:79 | removing a self-non-overlapping suffix from a text that holds it only at the end gives the text before it |
| Text.SplitProperties | mapcat/toolkit/act.py:35-36 | the split pieces join back to the text, hold no separator, and number more than one iff the separator occurs |
| Text.Slice | mapcat/toolkit/act.py:70 | s[i:j] has the clamped length and the characters of s from i |
| Text.Drop | mapcat/toolkit/act.py:24 | s[1:] is s without its first character, or empty |
| Text.ParseDecimal | mapcat/toolkit/act.py:70 | float() accepts exactly a non-empty digit string here, giving its decimal value (most significant digit first), and otherwise raises ValueError |
| Text.ParseDigits | mapcat/toolkit/act.py:70 | parsing the decimal rendering of n gives n |
| Paths.Parse | mapcat/toolkit/act.py:52-55 | Path(text) has only non-empty, non-"." components without a separator |
| Paths.StrParse | mapcat/toolkit/act.py:59 | Path(str(p)) == p |
| Paths.Join | mapcat/toolkit/update_sky_coverage.py:25 | parent / child is again a normalised path |
| Paths.RelativeTo | mapcat/toolkit/act.py:59 | relative_to succeeds iff the path lies below the root, gives a relative path, and raises ValueError otherwise |
| Paths.JoinRelativeTo | mapcat/toolkit/act.py:59 | root / p.relative_to(root) == p |
| Paths.RelativeToJoin | mapcat/toolkit/update_sky_coverage.py:25 | (root / rel).relative_to(root) == rel for a relative rel |
| Act.AsWrittenHasNoQuote | mapcat/toolkit/act.py:15-16 | extract_string's output never holds an apostrophe |
| Act.AsWrittenKeepsQuoteFree | mapcat/toolkit/act.py:15-16 | a text without an apostrophe comes back unchanged |
| Act.AsWrittenRecovers | mapcat/toolkit/act.py:15-16 | the content of str(b) comes back when it holds no apostrophe and does not end in 'b' |
| Act.AsWrittenDropsTrailingB | mapcat/toolkit/act.py:15-16 | str(b"ab") comes out as "a" |
| Act.ExtractString | mapcat/toolkit/act.py:15-16 | corrected: a bytes text is the str() of its result, and a text without an apostrophe is unchanged |
| Act.ExtractStringOfBytes | mapcat/toolkit/act.py:15-16 | corrected: every bytes value comes back from its text |
| Act.ExtractStringAgrees | mapcat/toolkit/act.py:15-16 | the corrected reading and the code give the same content for every bytes value without an apostrophe that does not end in 'b' |
| Act.Observations | mapcat/toolkit/act.py:37 | one observation per id, in order, each bytes text giving back its content |
| Act.ArrayPieces | mapcat/toolkit/act.py:35-36 | with a "_" in the array text, tube slot, "_" and frequency open the text, neither piece holds "_", and the frequency ends where a "_" or the text ends |
| Act.ArrayFieldsAreThePieces | mapcat/toolkit/act.py:35-36 | any tube slot and frequency with those properties are exactly split("_")[0] and split("_")[1], so the properties fix both fields |
| Act.ParseInfoFile | mapcat/toolkit/act.py:19-42 | the old layout is used iff band and detset exist; there frequency is band without its first character and tube slot is detset; in the ACT layout tube slot and frequency are split("_")[0] and [1] of array, and also satisfy the piece properties that `Act.ArrayFieldsAreThePieces` shows fix them; a missing array is KeyError, an array without "_" IndexError; success iff the common datasets exist; the observations, times and box come from ids, period, t and box |
| Act.ArrayExample | mapcat/toolkit/act.py:35-36 | the array text b'pa4_f150' splits into pa4 and f150 |
| Act.CollectFilesOk | mapcat/toolkit/act.py:59 | the comprehension succeeds iff every existing file lies below the root |
| Act.CollectFilesEntries | mapcat/toolkit/act.py:51-59 | the keys are the kinds whose file exists, each holding that file relative to the root |
| Act.CollectFilesError | mapcat/toolkit/act.py:59 | a failure returns the index of the first kind whose existing file is outside the root, with that file's relative_to ValueError as the error |
| Act.CollectFilesSkip | mapcat/toolkit/act.py:51-59 | past a kind whose file is resolvable, a failure is the failure of the remaining kinds |
| Act.CollectFilesOkStep | mapcat/toolkit/act.py:51-59 | in a successful collection the first kind's existing file lies below the root and is entered over what the remaining kinds collect; a missing one adds nothing |
| Act.CollectFilesErrorLater | mapcat/toolkit/act.py:59 | when the first kind is resolvable, the failing kind is a later one, with every kind before it resolvable |
| Act.ParseFilenames | mapcat/toolkit/act.py:45-59 | keys are drawn from map, info, ivar and time, present iff that file exists; it succeeds iff no existing file lies outside the root |
| Act.FilenamesRoundTrip | mapcat/toolkit/act.py:51-59 | joining an entry back onto the root gives base plus that kind's suffix |
| Act.TodCtime | mapcat/toolkit/act.py:70 | obs_id[4:14] parses iff the obs_id is longer than 4 and those characters are digits, and the ctime is then the decimal value of those digits; otherwise ValueError |
| Act.TodCtimeExample | mapcat/toolkit/act.py:70 | "obs_1753486724_..." gives 1753486724 |
| Act.Tods | mapcat/toolkit/act.py:66-76 | one TOD per observation in order with its ctime, telescope, tube slot and frequency; the first bad obs_id raises its error |
| Act.StripMapSuffix | mapcat/toolkit/act.py:79 | map_name of a map path "stem_map.fits" is stem when stem holds no other "_map.fits" |
| Act.Get | mapcat/toolkit/act.py:81-82 | dict.get gives the entry iff the key is present |
| Act.MapRowOk | mapcat/toolkit/act.py:78-89 | the map row holds the map, ivar and time entries, the info fields and one TOD per observation |
| Act.CreateObjectsReadsOwnInfo | mapcat/toolkit/act.py:63-64 | the info read is base's own _info.hdf, at root / filenames["info"] |
| Act.CreateObjectsOk | mapcat/toolkit/act.py:62-91 | a created row's map file exists, ivar and time paths are set iff those files exist, every stored path joins back onto the root as its file, and the fields come from base's info file |
| Act.CreateObjectsWithoutInfo | mapcat/toolkit/act.py:63-64 | a missing info file is KeyError("info") |
| Act.BaseOfMapFile | mapcat/toolkit/act.py:98 | the base of a matched "stem_map.fits" is stem, and its map file is the matched file |
| Act.GlobWithSpec | mapcat/toolkit/act.py:94-104 | the ingest succeeds iff every matched file does, then holds their rows in match order; otherwise it is the error of the first failing file |
| Act.GlobStopsAt | mapcat/toolkit/act.py:97-102 | a failing file ends the ingest with its error whatever follows |
| Act.Glob | mapcat/toolkit/act.py:94-104 | the loop returns exactly the specified ingest of the matched files |

## Left out

- Radians and floating point. `np.rad2deg`, `np.deg2rad` and `float()` are modelled as exact
  degrees and reals, so rounding at grid edges is not captured.
- pixell. `enmap.read_map`, `enmap.submap`, `tmap.box()` and `np.any` are foreign raster code.
  The raster is the predicate `anyNonZero`, and reading is an input function that may fail
  (`IOError`). The pixel-edge behaviour of `submap` is not specified.
- Filesystem and HDF5. The following are all inputs:
  - `Path.exists`;
  - `relative_to.glob` (the list of matched paths);
  - `h5py.File` (the datasets of an info file);
  - `settings.depth_one_parent` (a parameter).
  The `_info.hdf` file named by `filenames["info"]` is assumed to open.
- SQLAlchemy. Sessions, query and join machinery, commit and rollback are not modelled.
  - Tables are in-memory maps and sets.
  - A raised exception leaves the committed state unchanged.
  - The order in which the first query returns rows is not modelled: `core` picks uncovered
    maps in an unspecified order.
- UpdateSkyCoverage.CoverageStore.Core: one map's failure aborts the whole pass before the
  commit, because the exception escapes the loop before `session.commit()`. The model
  follows the code and does not isolate failing maps.
- Every `main()`: argparse wiring and `settings.session`. The one argparse rule that matters,
  `choices=VALID_STATUSES`, is `Reset.StatusChoice`. Its refusal is reported as a
  `ValueError`, where argparse really prints usage and exits.
- The TOD rows' other columns (pwv, nsamples, pointing and so on) are not modelled. Neither
  are the depth-1 map columns that the modelled code does not read.
- The raster path column: `DepthOneMapTable` declares `time_path`, but the modelled code
  reads and writes `mean_time_path`. The model follows the code (`Catalog.DepthOneMap`
  field `meanTimePath`).
- DatabaseTools.CoverageFromDepthOne: the original reads `d1map.box`, which
  `DepthOneMapTable` does not declare. The box is taken as a parameter.
- DatabaseTools.CoverageFromDepthOne: the stored `mean_time_path`, which may be unset, goes
  to pixell's `read_map` as it is. What `read_map` raises for an unset path or an unreadable
  file is foreign, so it is not modelled. Every read failure is an `IOError` carrying
  `str(mean_time_path)`, which is "None" when the path is unset.
- reset.py imports `TimeDomainProcessingTable`, while the package exports
  `ProcessingStatusTable`. The model keeps the table under the name the code uses.
- RA wrap-around normalisation: the code has none, and neither does the model
  (`Tiling.SeamBoxTilesAreNotWrapped`).
- Text.ReplaceAll: an empty pattern is excluded by its precondition. The code only ever
  replaces non-empty patterns.
- Act.TodCtime: `float()` also accepts signs, exponents, a decimal point, surrounding
  whitespace, digit-group underscores ("1234_56789" is 123456789.0), "inf" and "nan". Only plain digit strings are accepted here. Every other text
  is a `ValueError`.
- Act.ParseInfoFile:
  - h5py's exact KeyError and IndexError messages are not modelled; the errors carry the
    dataset name or a fixed text.
  - The datasets are held as the text `str()` gives for them.
  - Its fields are read through the corrected `Act.ExtractString`, not the code's
    `extract_string` (see "## Findings"). The two agree on every bytes value whose content
    holds no apostrophe and does not end in "b" (`Act.ExtractStringAgrees`). For other
    values the model gives the content the code evidently means, not what the code
    computes. For example, band `b'f150b'` gives frequency "150b" here, where the code
    gives "150".
- Act.Observations: the same holds for the observation ids. An id whose content ends in
  "b" keeps its last character here, where the code drops it.
- Paths.Parse: a leading "//", which pathlib keeps as a distinct root, is treated like "/".
  `..` components are kept as ordinary components, as pathlib does.
- Cascades other than coverage: deleting a map also deletes processing-status, pointing and
  pipeline rows. Only the coverage cascade (`UpdateSkyCoverage.CoverageStore.DeleteMap`) is
  modelled.

## Findings

| source | as written | input that shows it | evidently intended | confidence | as-written member | corrected member |
|---|---|---|---|---|---|---|
| mapcat/toolkit/act.py:16 | `str(input).replace("b'", "").replace("'", "")` removes every "b'", including one made of the last content character and the closing quote | bytes `b"ab"`, whose text is `b'ab'`, gives `"a"` | the bytes content, `"ab"` | high for the string behaviour, medium that such values occur (any band, detset, array or obs id ending in "b"); not executed | Act.AsWrittenDropsTrailingB | Act.ExtractStringOfBytes |

The rest of the model (`Act.ParseInfoFile`, `Act.Observations`) uses the corrected
`Act.ExtractString`. "## Left out" states where this departs from what the code computes. It strips the `b'…'` wrapper of a bytes text and leaves every other text
as the original does.
