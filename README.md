# DEM elevation lookup, modelled in Dafny

This project models the core of a small C++ library for terrain elevation
(digital elevation model, DEM) lookups, in each of its historical variants.

- **Tiles.** A tile (`DEM`) decodes a raw file of 16-bit samples into a
  grid. It derives the tile's geographic bounds from its metadata (`Type`:
  rows, columns, south-west corner, cell size, no-data value). It maps a
  latitude and longitude to a fractional grid position and answers
  nearest-sample (`altitude`) and bilinear (`interpolated_altitude`)
  queries. The oldest tile keeps a flat sample vector, names its corner
  after its file name and also answers a square `patch`.
- **Directors.** A director (`Map`) holds an immutable catalog, ordered by
  coordinate, of one-degree tiles and one resident tile. A query outside
  the resident tile loads the tile keyed by the floored position, if the
  catalog has one. The director also builds catalogs from directory
  listings by matching tile file names.
- **Transcoders.** The transcoders (`Utility`) convert ESRI ASCII grids and
  comma-separated grids to raw sample files and back. Each sample goes
  through a byte-order step (`serialize`), and the output path is derived
  from the input path.

Each variant is modelled from its own file:

- include/DEM/DEM.hpp: `Geo`, `Raster`, `TemplateDem` (byte order as a `std::endian` template argument; the constructor throws).
- include/DEM.hpp: `Raster`, `BoolDem` (`bool little_endian`, AND-based swap test, a read failure is not thrown).
- src/DEM.cpp: `SrcDem` (plain `int16_t`, no byte swap, `altitude` without clamp).
- DEM.hpp: `FlatDem` (flat vector, file-name corner, `patch`) and the static converters in `Transcode`.
- Map.hpp: `PosixMap` (files checked by opening them, `readdir` listing).
- include/Map.hpp: `FsMap` (`std::filesystem::exists`, regular files only). Its errors, tiles and `load` lookup are those of `PosixMap`, as the two headers share them.
- src/Map.cpp: `SrcMap` (fixed 3600×3600 metadata). Its constructor's existence check is the loop of `FsMap`, which it shares.
- include/DEM/Utility.hpp, Utility.hpp, include/Utility.hpp and src/Utility.cpp: `Transcode`, one `Variant` value per file.

Shared pieces: `Samples` covers 16-bit samples, their bytes and
`serialize`. `Files` is the file system as a value. `Text` covers decimal
rendering and parsing, comma-separated text and path names. `Catalog` is
the ordered catalog and the tile-name pattern.

Conventions of the model:

- Coordinates, cell sizes and grid positions are exact `real`s.
- `std::round` rounds halves away from zero. A floating-to-integer
  conversion truncates towards zero.
- An out-of-range vector access, or a negative value converted to `size_t`,
  is undefined behaviour in C++. The model returns `Lookup.Undefined` for
  it, and lemmas show when it cannot happen and exhibit inputs where it
  does.
- Exceptions become `Result.Err` values naming which error occurred.
- The host byte order is a parameter (`native`).
- The directors are classes whose one mutable field is the resident tile.
  Their `Load`, `Altitude` and `InterpolatedAltitude` methods state the
  new resident tile and the answer.
- The loops of the source stay loops, each proved against a specification
  function:
  - the row-buffer decoder;
  - the header skippers;
  - the value readers;
  - the CSV tokeniser and writer;
  - the catalog builders;
  - the `patch` window;
  - the in-place byte reversal of the `serialize` union.

## Model

| member | source | states |
|---|---|---|
| Geo.MakeCoordinate | include/DEM/DEM.hpp:48-56 | the coordinate constructor succeeds exactly when latitude ∈ [-90, 90] and longitude ∈ [-180, 180], keeps both values, and otherwise fails with the invalid coordinates |
| Geo.LessIsStrictTotalOrder | include/DEM/DEM.hpp:64-73 | `operator<` is irreflexive, asymmetric and transitive; two coordinates are incomparable exactly when `operator==` holds, which is structural equality, so it is a valid `std::map` key order |
| Geo.LessIsLexicographic | include/DEM.hpp:37-42 | `operator<` compares latitudes first, and longitudes only between equal latitudes |
| Geo.Floor | Map.hpp:140-143 | `std::floor` gives the integer n with n ≤ x < n + 1 |
| Geo.UnitBoundsPartition | Map.hpp:139-146 | a point lies in the one-degree box at an integer corner exactly when that corner is its floored latitude and longitude |
| Raster.MakeType | include/DEM/DEM.hpp:226-241 | `Type` succeeds exactly when nrows > 0, ncols > 0 and the corner is in range; zero dimensions report the dimension error first; success keeps all six fields |
| Raster.BoundsShape | include/DEM/DEM.hpp:261-266 | the derived bounds are a rectangle: north corners share yll + cellsize·nrows, east corners share xll + cellsize·ncols, SW is the corner, and the sides have those lengths |
| Raster.WithinNonDegenerate | include/DEM/DEM.hpp:99-110 | the half-open `within` test holds for some point only when the tile has rows, columns and a positive cell size |
| Raster.MakeBounds | include/DEM/DEM.hpp:261-266 | the constructor's bounds exist exactly when the NE and SW corners are valid coordinates; they are the derived bounds; an invalid NW corner is the error reported |
| Raster.UnitTileBounds | include/DEM.hpp:226-231 | a one-degree tile at an integer corner has valid bounds exactly when the corner is at most 89° north and 179° east |
| Raster.IndexOf | include/DEM/DEM.hpp:175-205 | inside the bounds `index` gives 0 < row ≤ nrows and 0 ≤ column < ncols; outside it gives (nodata, nodata) |
| Raster.IndexRange | include/DEM/DEM.hpp:181-189 | the offsets from the north and west edges divided by the cell size lie in (0, nrows] and [0, ncols) |
| Raster.HemisphereBranchesDead | include/DEM/DEM.hpp:178-193 | inside the bounds the latitude is never south of SW nor the longitude west of it, so the "Southern" and "Western" branches never run |
| Raster.IndexOfGridPoint | include/DEM/DEM.hpp:175-205 | every position in `index`'s range is the index of exactly its own grid point, which lies inside the bounds |
| Raster.Round | include/DEM/DEM.hpp:295-296 | `std::round` is within one half of its argument and not negative for a non-negative argument |
| Raster.Trunc | include/DEM/DEM.hpp:314-315 | the conversion to `size_t` drops the fraction towards zero |
| Raster.At | include/DEM/DEM.hpp:301 | `data[r][c]` is defined exactly when both indices are in range, and is then the stored sample |
| Raster.NearestLineInGrid | include/DEM/DEM.hpp:295-299 | after rounding and the clamp of nrows to nrows − 1, the line read is inside the grid and is the nearest line, or the last line within the last half cell |
| Raster.AltitudeIsNearestSample | include/DEM/DEM.hpp:288-304 | inside the bounds of a complete grid, `altitude` is defined and reads the sample at the nearest (clamped) row and column |
| Raster.NegativeNodataNeverIndex | include/DEM/DEM.hpp:291-293 | with a negative no-data value an in-bounds query never takes the no-data early return |
| Raster.OutsideIsNodata | include/DEM/DEM.hpp:288-312 | outside the bounds both queries return the no-data value |
| Raster.ZeroNodataHidesWesternEdge | include/DEM.hpp:243-267 | with no-data 0, every in-bounds point on the western edge has column 0, and both queries answer 0 instead of the sample |
| Raster.AltitudeAtGridPoint | include/DEM/DEM.hpp:295-301 | at a grid point of a complete grid away from the first row (whose north edge lies outside the half-open bounds), with row and column other than the no-data value, `altitude` returns exactly the stored sample |
| Raster.BlendIsBilinear | include/DEM/DEM.hpp:323-326 | the four-term weighted sum equals interpolating along each row, then between the rows |
| Raster.InterpolatedAtGridPoint | include/DEM/DEM.hpp:307-329 | at a grid point of a complete grid away from the first row, with row and column other than the no-data value, `interpolated_altitude` returns exactly the stored sample |
| Raster.BlendAtGridPosition | include/DEM/DEM.hpp:314-326 | at an integer grid position every weight but the first is zero, so the blend is data[r][c] |
| Raster.InterpolatedAtCellCentre | include/DEM.hpp:269-283 | at a cell centre away from the last row and column the blend is the mean of the four neighbours |
| Raster.InterpolatedIsConvex | include/DEM/DEM.hpp:314-326 | north of the south edge, the neighbours next_r and next_c stay inside the grid, the interpolation is defined, and it lies between the least and the greatest of the four samples |
| Raster.InterpolatedSouthEdgeReadsPastGrid | include/DEM/DEM.hpp:314-323 | at lat = SW.lat the row index is nrows, and the interpolation reads row nrows, past the grid |
| Raster.Rows | include/DEM/DEM.hpp:152-164 | the rows a flat sample sequence is cut into all have exactly ncols samples |
| Raster.RowsAppend | include/DEM/DEM.hpp:155-164 | cutting whole rows followed by more samples gives the rows of each part, one after the other |
| Raster.RowsLayout | include/DEM/DEM.hpp:159-163 | row i is the samples i·ncols up to i·ncols + ncols, for every complete row |
| Raster.RowsPushRow | include/DEM/DEM.hpp:159-162 | a full buffer pushed on whole rows adds exactly one row |
| Raster.RowsDropPartial | include/DEM/DEM.hpp:155-164 | a trailing buffer shorter than a row adds no row |
| Raster.RowsCount | include/DEM/DEM.hpp:152-164 | m·ncols samples give exactly m rows |
| Raster.DecodeRows | include/DEM/DEM.hpp:151-164 | the row-buffer read loop returns the rows of the samples decoded in the order `serialize` leaves them in |
| Raster.ReadSample | include/DEM/DEM.hpp:155-156 | one `fp.read` followed by `serialize` yields sample k of the stream in the host order, or in the flipped order when the bytes are reversed |
| Raster.DecodedGridComplete | include/DEM/DEM.hpp:151-164 | a file of at least nrows·ncols samples gives a complete grid |
| Raster.DecodeRowsOfEncoded | include/DEM/DEM.hpp:151-164 | reading back samples written in the same order gives exactly their m rows |
| Raster.WrittenGridRead | include/DEM/DEM.hpp:151-164 | a tile file written in the order it is read gives the rows of the written samples |
| Raster.AltitudeOfWrittenGrid | include/DEM/DEM.hpp:288-304 | querying a grid point of a written and re-read tile, away from the first row and with row and column other than the no-data value, returns the sample written at r·ncols + c |
| Samples.Narrow | src/Utility.cpp:113 | `static_cast<int16_t>` keeps a value congruent modulo 2^16, and an int16 value unchanged |
| Samples.ValueOfBytes | include/DEM/DEM.hpp:136-139 | the bytes a sample is stored as, read back in the same order, are the sample |
| Samples.BytesOfValue | include/DEM/DEM.hpp:136-139 | storing the value two bytes represent gives back those bytes |
| Samples.ReadInOtherOrder | include/DEM/DEM.hpp:143 | two bytes read in the other byte order are the byte-reversed value |
| Samples.ByteSwapInvolution | include/DEM/DEM.hpp:143 | reversing the bytes twice restores the sample |
| Samples.SerializeInvolution | include/DEM/DEM.hpp:138-146 | `serialize` applied twice is the identity, whichever test decides it |
| Samples.XorDecodesRequestedOrder | include/DEM/DEM.hpp:140-145 | with the XOR test, a sample read in host order and serialized is the sample the bytes denote in the requested order, on either host |
| Samples.AndDecodesOrder | include/DEM.hpp:103-111 | with the AND test the order actually decoded is little-endian when asked, and otherwise the opposite of the host's |
| Samples.AndMisreadsBigEndianOnBigHost | src/Utility.cpp:24-32 | asking for big-endian data on a big-endian host still reverses the bytes: 0x00 0x01 (1) decodes as 256 |
| Samples.EncodeAs | src/Utility.cpp:119 | writing n samples gives 2n bytes |
| Samples.DecodeAs | include/DEM/Utility.hpp:163 | reading two bytes at a time gives ⌊bytes/2⌋ samples |
| Samples.DecodeEncode | include/DEM/Utility.hpp:146-163 | samples written in one byte order and read in the same order come back unchanged |
| Samples.EncodeDecode | include/DEM/Utility.hpp:146-163 | re-encoding decoded samples reproduces the stream, less a trailing odd byte |
| Samples.DecodeOtherOrder | include/DEM/Utility.hpp:146-163 | samples written in one order and read in the other come back byte-swapped |
| Samples.DecodedPair | include/DEM/Utility.hpp:146-163 | sample k written in one order reads back as itself in that order and byte-swapped in the other |
| Samples.SwapAll | include/DEM/Utility.hpp:163 | every sample byte-swapped, in place |
| Samples.Union16.constructor | include/DEM/DEM.hpp:136 | the zero-initialised union holds two bytes and the value 0 |
| Samples.Union16.Store | include/DEM/DEM.hpp:139 | assigning the value stores its bytes in host order |
| Samples.Union16.Reverse | include/DEM/DEM.hpp:143 | `std::reverse` of the two bytes swaps them and byte-swaps the value |
| Samples.Union16.Serialize | include/DEM/Utility.hpp:39-48 | the union-based `serialize` returns the value, byte-swapped when the test says so, and leaves it in the union |
| Files.Join | include/Map.hpp:83 | `dir / name` starts with the directory and ends with the name; an empty directory gives the name alone |
| TemplateDem.XorReadOrder | include/DEM/DEM.hpp:140-145 | the XOR test decodes exactly the requested byte order, on either host |
| TemplateDem.Read | include/DEM/DEM.hpp:135-172 | `read` fails exactly when the file does not open, and otherwise gives the rows of the samples in the requested order |
| TemplateDem.Construct | include/DEM/DEM.hpp:259-278 | the constructor throws, in order, for invalid bounds, a missing file and a failed read, and otherwise holds the decoded tile |
| BoolDem.Read | include/DEM.hpp:97-137 | `read` fails exactly when the file does not open, and otherwise decodes in the order the AND test picks |
| BoolDem.Construct | include/DEM.hpp:224-235 | the constructor fails only for invalid bounds; a failed read is not thrown and leaves the grid empty |
| BoolDem.LittleEndianTileOnAnyHost | include/DEM.hpp:103-111 | a little-endian file reads back correctly on either host |
| BoolDem.BigEndianTileOnLittleHost | include/DEM.hpp:103-111 | a big-endian file reads back correctly on a little-endian host |
| BoolDem.BigEndianTileOnBigHostIsSwapped | include/DEM.hpp:103-111 | a big-endian file read on a big-endian host has every sample byte-swapped |
| BoolDem.UnreadTileQueriesUndefined | include/DEM.hpp:234-256 | a tile whose read failed has no rows, so an in-bounds query reads past the grid |
| SrcDem.Read | src/DEM.cpp:12-37 | `read` fails exactly when the file does not open, and otherwise gives the rows of the host-order samples |
| SrcDem.Construct | src/DEM.cpp:73-84 | the constructor never fails: the decoded tile, or an empty grid when the file does not open |
| SrcDem.HostOrderTileRead | src/DEM.cpp:20-28 | a file written in host order reads back as the rows of the written samples |
| SrcDem.ForeignOrderTileIsSwapped | src/DEM.cpp:20-28 | a file written in the other order reads back byte-swapped, since there is no `serialize` |
| SrcDem.AltitudeAgreesAwayFromEdges | src/DEM.cpp:105-118 | where the rounded indices are inside the grid, the unclamped `altitude` answers as the clamped one |
| SrcDem.AltitudeReadsPastSouthEdge | src/DEM.cpp:112-115 | at lat = SW.lat the unclamped `altitude` reads row nrows, past the grid, where the clamped one is defined |
| SrcDem.AltitudeReadsPastEastEdge | src/DEM.cpp:112-115 | in the last half column the unclamped `altitude` reads column ncols, where the clamped one reads the last column |
| FlatDem.MakeFlatType | DEM.hpp:131-135 | `Type` keeps resolution and width; the cell size is defined exactly when width > 0, and then cellsize·width = range |
| FlatDem.DeduceFilename | DEM.hpp:54-75 | the corner is parsed exactly when the base name holds a '_' |
| FlatDem.DeduceTileName | DEM.hpp:54-75 | the corner parsed from `dir/LAT_LON.bin` is (LAT, LON) |
| FlatDem.TileNameShapeMatches | DEM.hpp:78-90 | every name made of digits, '_', digits, one character and "bin" passes `check_filename` |
| FlatDem.MatchedNameHasShape | DEM.hpp:78-90 | a name accepted by `check_filename` is digits, '_', digits, any one character, then "bin" |
| FlatDem.SouthernTileRejected | DEM.hpp:87-89 | `check_filename` rejects "-1_2.bin": the pattern has no sign |
| FlatDem.AnyCharacterBeforeBin | DEM.hpp:87-89 | `check_filename` accepts "1_23bin": the unescaped '.' matches any character |
| FlatDem.Read | DEM.hpp:36-51 | `read` fails exactly when the file does not open, and otherwise appends every host-order sample, in file order |
| FlatDem.Construct | DEM.hpp:144-158 | the constructor keeps the type and the parsed corner and never throws; an unreadable file leaves no samples |
| FlatDem.FlatBounds | DEM.hpp:149-154 | NW = (lat+1, lon), NE = (lat+1, lon+1), SW = (lat, lon), SE = (lat, lon+1) |
| FlatDem.FlatBoundsAreUnitBounds | DEM.hpp:93-101 | the tile is the one-degree box at its corner, holding exactly the points whose floored coordinates are the corner |
| FlatDem.FlatIndex | DEM.hpp:104-120 | `index` throws exactly when the point is out of bounds |
| FlatDem.FlatIndexRange | DEM.hpp:104-120 | for non-negative corners, in bounds the index is ((NW.lat − lat)·(width−1), (lon − SW.lon)·(width−1)) within [0, width−1] |
| FlatDem.FlatSample | DEM.hpp:169 | `data[i]` is defined exactly when i is in range |
| FlatDem.SizeTWraps | DEM.hpp:218 | `size_t` arithmetic is modulo 2^64 |
| FlatDem.FlatAltitudeInRange | DEM.hpp:163-172 | for non-negative corners an in-bounds `altitude` reads data[round(row)·width + round(col)], an index below width² |
| FlatDem.WesternTileAltitudeUndefined | DEM.hpp:108-109 | for a western tile the column index is negative, so `altitude` converts a negative value to `size_t` |
| FlatDem.FlatBlendAtGridPosition | DEM.hpp:175-190 | at an integer position the interpolation is data[r·width + c] |
| FlatDem.FlatBlendTakesNorthernRow | DEM.hpp:184-187 | halfway between rows r and r+1 the interpolation averages row r with row r−1, not r+1 |
| FlatDem.FlatBlendInside | DEM.hpp:175-190 | when both rows read lie inside the vector the interpolation is defined |
| FlatDem.AxisRangeFull | DEM.hpp:200-225 | when width ≥ 2·radius+1 each axis range has 2·radius+1 indices, contains the centre and stays within [0, width) |
| FlatDem.AxisRangeUnderflow | DEM.hpp:217-224 | when width < 2·radius+1 and the centre is near the far edge, `width − patch_width − 1` wraps and the axis range is empty |
| FlatDem.RowFromDefined | DEM.hpp:228-229 | the inner loop of `patch` reads the stored samples of columns cs up to j of row i |
| FlatDem.WindowDefined | DEM.hpp:227-229 | the nested loops read (rows)·(columns) samples |
| FlatDem.WindowContents | DEM.hpp:227-229 | the nested loops push the samples row by row, in each row column by column: cell (a, b) of the window is the sample of row rs + a and column cs + b |
| FlatDem.WindowUndefinedPersists | DEM.hpp:227-229 | once a read is out of range the patch stays undefined |
| FlatDem.CollectWindow | DEM.hpp:227-229 | the nested push loops return the window, row by row |
| FlatDem.Patch | DEM.hpp:193-232 | `patch` returns the window of its clamped axis ranges around the truncated index |
| FlatDem.PatchOfFullTile | DEM.hpp:193-232 | for non-negative corners and width ≥ 2·radius+1, `patch` returns (2·radius+1)² samples in row-major order: entry a·(2·radius+1) + b is the tile sample at row rows.start + a and column columns.start + b, and the window holds the centre and lies inside the grid |
| Catalog.Get | Map.hpp:145-146 | lookup finds the entry with the key, and finds none exactly when no entry has it |
| Catalog.PutIsAssignment | Map.hpp:125 | `grid[key] = entry` keeps the catalog ordered, maps the key to the entry and leaves every other key alone |
| Catalog.FirstHoldsLeastKey | Map.hpp:41-42 | `cbegin()` of an ordered catalog holds the least key |
| Catalog.FloorKey | Map.hpp:139-143 | the key `load` looks up has integral coordinates at most the point's and less than one degree below them, so the point lies in the one-degree box at that key |
| Catalog.UnitTileHoldsFlooredPoints | Map.hpp:139-149 | a one-degree tile holds a point exactly when the point's floored key is the tile's corner |
| Catalog.StodReadsGroup | include/Map.hpp:75-76 | `std::stod` of a matched group reads the number the group denotes |
| Catalog.MatchTileName | Map.hpp:78 | a full match of the tile pattern yields a latitude of at most two digits and a longitude of at most three |
| Catalog.RenderedGroup | Map.hpp:78 | a written integer matches `[-]?\d{1,n}` exactly when it has at most n digits, and the group reads back as it |
| Catalog.RenderedTileName | Map.hpp:78 | `LAT_LON.bin` matches exactly when LAT has at most two digits and LON at most three, yielding (LAT, LON) |
| Catalog.MatchTileNameOfParts | Map.hpp:78 | a name that is a part without '_', then "_", a part, then ".bin" is matched by the tile pattern |
| Catalog.Accept | Map.hpp:113-123 | an accepted name gives an integral coordinate in range |
| Catalog.AcceptTileName | Map.hpp:113-123 | `LAT_LON.bin` is accepted exactly when LAT ∈ [-90, 90] and LON ∈ [-180, 180] |
| Catalog.Catalogue | Map.hpp:113-128 | the catalog built from the accepted names is ordered |
| Catalog.CatalogueLookup | Map.hpp:113-128 | a key maps to the last accepted file with that key, with Type(nrows, ncols, lat, lon, cellsize, nodata), and to nothing when no file has it |
| Catalog.Catalogued | include/Map.hpp:74-84 | building fails exactly when some name is accepted and nrows or ncols is 0, since `Type` throws |
| Catalog.BuildCatalogue | Map.hpp:113-128 | the insert loop returns the catalog of the candidates |
| Catalog.Consider | Map.hpp:116-126 | one iteration fails exactly when the name is accepted with a zero dimension, and otherwise adds the entry |
| Catalog.RegularFiles | include/Map.hpp:69-71 | the candidates are at most the listed entries |
| Catalog.RegularFilesOfListing | include/Map.hpp:69-83 | a candidate is exactly a regular-file entry with its path joined to the directory |
| Catalog.CatalogueRegularFiles | include/Map.hpp:69-87 | the `directory_iterator` loop returns the catalog of the regular files |
| PosixMap.FirstUnopened | Map.hpp:30-37 | the first catalog entry, in key order, whose file does not open |
| PosixMap.Opening | Map.hpp:25-43 | the constructor throws for an empty catalog, then for the first unopenable file, and otherwise builds the tile of the first entry |
| PosixMap.Loading | Map.hpp:139-149 | `load` finds the entry keyed by the floored position, if any; an out-of-range floored key throws |
| PosixMap.LoadedTileHolds | Map.hpp:54-61 | in a catalog of one-degree entries, the tile `load` brings in holds the point queried |
| PosixMap.Map.Of | Map.hpp:39-42 | the director holds the catalog and the tile of its resident entry |
| PosixMap.Map.Create | Map.hpp:25-43 | construction fails exactly as `Opening` does; otherwise the catalog is stored unchanged and the resident is its first entry |
| PosixMap.Map.CheckFiles | Map.hpp:30-37 | the check loop stops at the first file that does not open |
| PosixMap.Map.Load | Map.hpp:139-149 | a miss returns false and keeps the resident tile; a hit replaces it wholesale and returns true; the catalog never changes |
| PosixMap.Map.Altitude | Map.hpp:54-62 | inside the resident tile: its answer, no load; outside: a miss gives the resident's no-data value, a hit loads the tile and gives its answer |
| PosixMap.Map.InterpolatedAltitude | Map.hpp:65-73 | the same routing for the interpolated query |
| PosixMap.Listed | Map.hpp:98-110 | `readdir` collects at most one path per entry |
| PosixMap.Candidates | Map.hpp:113-114 | each collected path is tested by the name after its last separator |
| PosixMap.Initialize | Map.hpp:76-131 | an unreadable directory throws; otherwise the catalog of the non-directory entries, or the `Type` error |
| PosixMap.ListFiles | Map.hpp:101-106 | the `readdir` loop returns the collected paths |
| PosixMap.ListedIsNonDirectories | Map.hpp:101-106 | a path is collected exactly when it is the directory and the name of a non-directory entry |
| PosixMap.SeparatedDirectoryAccepted | Map.hpp:104-114 | a directory given with a trailing '/' yields the tile name itself |
| PosixMap.UnseparatedDirectoryRejected | Map.hpp:104-116 | a directory given without a trailing '/' is glued to every name, and no tile is accepted |
| FsMap.FirstMissing | include/Map.hpp:23-30 | the first catalog entry, in key order, whose path does not exist |
| FsMap.Opening | include/Map.hpp:18-36 | the constructor throws for an empty catalog, then for the first missing path, and otherwise builds the tile of the first entry |
| FsMap.Map.Of | include/Map.hpp:32-35 | the director holds the catalog and the tile of its resident entry |
| FsMap.Map.Create | include/Map.hpp:18-36 | construction fails exactly as `Opening` does; otherwise the catalog is stored unchanged and the resident is its first entry |
| FsMap.Map.CheckFiles | include/Map.hpp:23-30 | the check loop stops at the first missing path |
| FsMap.Map.Load | include/Map.hpp:101-111 | a miss returns false and keeps the resident tile; a hit replaces it wholesale |
| FsMap.Map.Altitude | include/Map.hpp:42-50 | routing: resident answer inside; outside, no-data on a miss, the loaded tile's answer on a hit |
| FsMap.Map.InterpolatedAltitude | include/Map.hpp:53-61 | the same routing for the interpolated query |
| FsMap.Initialize | include/Map.hpp:64-93 | an unreadable directory throws; otherwise the catalog of its regular files, or the `Type` error |
| SrcMap.Loading | src/Map.cpp:32-42 | `load` finds the entry keyed by the floored position, and finds none exactly when no entry has that key |
| SrcMap.Map.Of | src/Map.cpp:25-28 | the director holds the catalog and the tile of its resident entry |
| SrcMap.Map.Create | src/Map.cpp:11-29 | an empty map throws, then the first missing path; otherwise the catalog is stored and the resident is its first entry |
| SrcMap.Map.Load | src/Map.cpp:32-42 | a miss returns false and keeps the resident; a hit replaces it |
| SrcMap.Map.Altitude | src/Map.cpp:45-53 | routing to the resident, no-data on a miss, the loaded tile on a hit, with the unclamped `altitude` |
| SrcMap.Map.InterpolatedAltitude | src/Map.cpp:56-64 | the same routing for the interpolated query |
| SrcMap.InitializeDEMMap | src/Map.cpp:67-95 | an unreadable directory throws; otherwise the catalog of its regular files with the fixed metadata |
| SrcMap.FixedCatalogueEntries | src/Map.cpp:85 | every catalogued tile is 3600×3600 with cell size 0.000277777, no-data INT16_MIN and its key as corner |
| Text.DigitsRoundTrip | src/Utility.cpp:94 | the decimal digits written for n read back as n |
| Text.Render | src/Utility.cpp:94 | `ofp << value` writes an optional '-' and digits, with no comma, line feed or space |
| Text.ParseRender | src/Utility.cpp:113 | a written integer parses back to itself |
| Text.ScanInt | include/DEM/Utility.hpp:88 | `ifp >> value` reads after white space an optional sign and a maximal digit run ending where a non-digit starts |
| Text.SkipSpace | include/DEM/Utility.hpp:88 | `>>` first passes over white space up to the first character that is not white space |
| Text.DigitRun | include/DEM/Utility.hpp:88 | the digits taken are a maximal run of digits |
| Text.ParseInt | src/Utility.cpp:113 | a cell parses exactly when an integer can be scanned from its start |
| Text.ParseRenderThen | include/DEM/Utility.hpp:88 | a written integer followed by a non-digit is read back whole, and the read stops after it |
| Text.Find | DEM.hpp:64 | `find` gives the position of the first occurrence, or the length |
| Text.FindIsFirst | DEM.hpp:64 | nothing before the found position is the character |
| Text.PiecesOfJoin | include/DEM/Utility.hpp:137-140 | `getline` with a separator splits at the first separator and continues with the rest |
| Text.Pieces | include/DEM/Utility.hpp:137-140 | a non-empty text splits into at least one piece at each separator |
| Text.SplitAtFirst | DEM.hpp:64-68 | a text with no separator before its first one splits there into its two parts |
| Text.RenderAll | include/DEM/Utility.hpp:117-119 | each value written as its decimal text |
| Text.CellsOfCsv | include/DEM/Utility.hpp:137-140 | the cells of the written comma-separated grid are the written values, in order |
| Text.ParseRenderAll | src/Utility.cpp:113 | every written cell parses back to its value |
| Text.Basename | Map.hpp:114 | the text after the last '/' or '\\' is a suffix without separators, preceded by a separator when shorter than the path |
| Text.BasenameOfJoin | include/Map.hpp:71 | the file name of `dir/name` is `name` |
| Transcode.PathUtility | include/DEM/Utility.hpp:36-176 | the variant checks existence, skips dynamically, replaces the extension, converts with `stod`, and uses the XOR test |
| Transcode.Skip | include/DEM/Utility.hpp:50-67 | where reading resumes is the first digit of a data line |
| Transcode.DynamicMetadataSkip | include/DEM/Utility.hpp:50-67 | the `getline` loop lands where `Skip` says |
| Transcode.SkipPastHeader | Utility.hpp:49-67 | lines whose first non-space character is not a digit are passed over |
| Transcode.DataLineFirst | src/Utility.cpp:34-52 | a data line ended by a line feed is where reading resumes, at its first digit |
| Transcode.LastDataLineLost | include/Utility.hpp:32-50 | a data line that ends the file without a line feed leaves the stream failed, so nothing is read |
| Transcode.NegativeFirstRowSkipped | include/DEM/Utility.hpp:59-63 | a first row starting with '-' counts as metadata: reading starts at the next line |
| Transcode.GridStartsWithData | include/DEM/Utility.hpp:50-67 | a grid with no header whose first sample is not negative is read from its start |
| Transcode.AfterLines | DEM.hpp:241-244 | where reading resumes after `count` `getline` calls lies within the text |
| Transcode.SkipLines | DEM.hpp:241-244 | the fixed header loop lands where `AfterLines` says |
| Transcode.LinesSkipped | DEM.hpp:241-244 | `count` calls pass over every header line and then continue in the body |
| Transcode.HeaderLinesSkipped | DEM.hpp:241-244 | exactly five header lines put reading at the body; fewer lines than five leave the stream failed |
| Transcode.FirstLineSkipped | DEM.hpp:241-244 | one `getline` passes over a header line, leaving the remaining count for the rest |
| Transcode.HeaderEnd | include/DEM/Utility.hpp:85 | where either header skip leaves reading lies within the text |
| Transcode.SkipHeader | DEM.hpp:239-244 | the variant's header step lands where `HeaderEnd` says |
| Transcode.SerializeAll | include/DEM/Utility.hpp:88 | every value passed through `serialize` |
| Transcode.SerializeAllInvolution | include/DEM/Utility.hpp:141-163 | serializing all values twice restores them |
| Transcode.ExtractedCases | include/DEM/Utility.hpp:88 | reading stops at text that is no integer or at a value outside int16, and otherwise keeps the value and continues after it |
| Transcode.ScanAfterSpace | include/DEM/Utility.hpp:88 | leading white space only shifts where the integer is found |
| Transcode.ExtractedAfterSpace | include/DEM/Utility.hpp:88 | white space before the next value does not change the values read |
| Transcode.ExtractedStep | include/DEM/Utility.hpp:88 | a written sample followed by white space is read as that sample, then reading continues with the rest |
| Transcode.ReadValues | include/DEM/Utility.hpp:88 | the `ifp >> value` loop reads the integers up to the first that is not an int16, and serializes each |
| Transcode.ExtractedGrid | include/DEM/Utility.hpp:88 | the values of a written ASCII grid body read back as the samples written |
| Transcode.Converted | include/DEM/Utility.hpp:141 | a token that is not a number throws; `stod` keeps the number; `stoi` then the cast keeps it modulo 2^16 |
| Transcode.ConversionsOfRendered | src/Utility.cpp:113 | `stoi` rejects values outside int32 and narrows others (40000 becomes −25536); `stod` of a value outside int16 is undefined |
| Transcode.ConvertAll | include/DEM/Utility.hpp:137-142 | converting succeeds with one sample per cell |
| Transcode.ConvertSnoc | include/DEM/Utility.hpp:137-142 | converting one more cell keeps an earlier failure, fails with that cell's error, or appends its sample |
| Transcode.ConvertAllStops | include/DEM/Utility.hpp:137-142 | the first failing cell decides the result, whatever follows |
| Transcode.ConvertRendered | include/DEM/Utility.hpp:141 | written samples convert back to themselves, serialized |
| Transcode.CellsOfLinesAppend | include/DEM/Utility.hpp:137-140 | the cells of two runs of lines are the cells of each, in order |
| Transcode.FailureDecides | include/DEM/Utility.hpp:140-141 | a failing token stops the conversion with its own error |
| Transcode.ReadCsv | include/DEM/Utility.hpp:136-142 | the nested `getline` loops convert every cell in order, or stop at the first failure |
| Transcode.ReadBin | include/DEM/Utility.hpp:163 | the raw read loop returns the samples of the file, serialized |
| Transcode.WriteCsv | include/DEM/Utility.hpp:168-173 | nrows·ncols values are written, a line feed after i when i % ncols = ncols − 1 and a comma otherwise; fewer values read past the data |
| Transcode.RowsComplete | include/DEM/Utility.hpp:168-173 | the last value of a complete grid is followed by a line feed |
| Transcode.WriteValues | src/Utility.cpp:135-141 | the write loop produces the comma-separated text of the values |
| Transcode.LayoutReadsBack | Utility.hpp:116-122 | the written grid is the comma-separated text, and it converts back to the values |
| Transcode.CsvCellsOf | include/Utility.hpp:99-105 | the cells of the written text are the written values |
| Transcode.LastIndexOf | src/Utility.cpp:56 | `find_last_of('.')` gives the last '.', or none |
| Transcode.DotReplaced | src/Utility.cpp:54-59 | the path through its last '.' followed by the extension, and "" when the path has no '.' |
| Transcode.DotReplacedTwice | Utility.hpp:69-74 | renaming twice is renaming once with the second extension |
| Transcode.DotReplacedLeavesDirectory | include/Utility.hpp:52-57 | "a.b/c" becomes "a.bin": a '.' in a directory name is taken as the extension |
| Transcode.NameStart | include/DEM/Utility.hpp:70-73 | the file name starts after the last '/' |
| Transcode.ExtensionStart | include/DEM/Utility.hpp:70-73 | the extension is the last '.' of the file name, not its first character |
| Transcode.ExtensionReplacedKeepsDirectory | include/DEM/Utility.hpp:70-73 | `replace_extension` keeps the directory and ends with "." + extension |
| Transcode.ExtensionReplacedTwice | include/DEM/Utility.hpp:70-73 | replacing the extension twice is replacing it once with the second one |
| Transcode.AscToBin | include/DEM/Utility.hpp:76-95 | asc→bin: check the input, skip the header, read and serialize the values, write them raw |
| Transcode.AscToCsv | include/DEM/Utility.hpp:98-122 | asc→csv: the values are written as a grid, without serialization |
| Transcode.CsvToBin | include/DEM/Utility.hpp:125-149 | csv→bin: every cell converted and serialized, written raw |
| Transcode.BinToCsv | include/DEM/Utility.hpp:152-175 | bin→csv: every sample read, serialized and written as a grid |
| Transcode.MissingInput | include/DEM/Utility.hpp:77-80 | a checking variant refuses a missing input in all four converters; the unchecked one reads an empty input |
| Transcode.CsvRoundTrip | include/DEM/Utility.hpp:141-163 | csv→bin→csv reproduces the text for every variant and byte order |
| Transcode.AscBinCsvAgree | Utility.hpp:141-162 | asc→bin→csv gives what asc→csv gives |
| Transcode.AscCsvRoundTrip | include/DEM/Utility.hpp:98-122 | an ASCII grid behind its header is written as the comma-separated grid of its samples |
| Transcode.GridAfterHeader | include/DEM/Utility.hpp:85-88 | the samples of a grid body behind a header are read back, with either header skip |

## Left out

- File and directory I/O is a value (`Files.FileSystem`): which paths exist, the bytes of openable files, the listings of readable directories. Write errors and partial reads are not modelled.
- Floating-point rounding (`float`/`double`) is not modelled: coordinates, cell sizes and indices are exact reals. The cell size 0.000277777 is kept as a constant, but its float artefacts are not.
- `std::regex` is replaced by hand-written recognisers of the two patterns.
- Number parsing (`>>`, `stod`, `stoi`, `istringstream`) is abstracted as decimal integers with an optional sign. Exponents, hexadecimal, fractions and ".5"-style forms are left out.
- Host endianness detection by type punning is the `native` parameter.
- The sample type is fixed to `int16_t`; the `dem_datatype` concept and `enable_if_dem_datatype` are not modelled.
- The exception messages are not modelled, only which error occurs.
- The Windows branch of Map.hpp's `initialize` (`FindFirstFile`) is not modelled; the POSIX branch is.
- `get_dem` and the default constructors of `Map` and `DEM` are trivial accessors and are left out.
- The destructors that clear `data` (include/DEM.hpp:238-240, src/DEM.cpp:87-89) have no observable effect in a value model and are left out.
- Transcode.WriteCsv: src/Utility.cpp loops with an `int` index; its 32-bit overflow for grids over 2^31 samples is not modelled.
- Transcode.WriteCsv: the static converters of DEM.hpp (lines 284 and 337) bound the loop by `width * width` computed in `unsigned int`, which wraps for widths of 2^16 and more; the model takes the product unbounded.
- Transcode.SkipLines: once `getline` fails the model stops with `Lost`. The source calls `getline` again on the failed stream, with the same outcome.
- Transcode.AscToBin, Transcode.CsvToBin, Transcode.AscToCsv and Transcode.BinToCsv: an output path of "" (an input without '.' in the converters that cut at the last '.') opens no file, so nothing is written. The model still returns the content, and `Transcode.Stored` leaves the file system unchanged.
- Raster.MakeBounds: the bounds of a tile are validated corner by corner through the `Coordinate` constructor in include/DEM/DEM.hpp and include/DEM.hpp. The constructor of src/DEM.cpp builds a plain coordinate pair (its `DEM::Coordinate` declaration is not part of this model), so `SrcDem` uses the derived bounds without validation.

## Findings

| source | as written | input that shows it | evidently intended | confidence | as-written member | corrected member |
|---|---|---|---|---|---|---|
| include/Utility.hpp:52-57 | the output path is cut at the last '.' of the whole path, so a '.' in a directory name is taken as the extension | input "a.b/c" with extension "bin" gives "a.bin", a file in the wrong directory | replace only the extension of the file name, as include/DEM/Utility.hpp:70-73 does with `replace_extension`, giving "a.b/c.bin" | not executed | Transcode.DotReplacedLeavesDirectory | Transcode.ExtensionReplacedKeepsDirectory |
