/** The tile director of Map.hpp: an immutable catalog of one-degree
    tiles and one resident tile of include/DEM.hpp, replaced wholesale
    whenever a query falls outside it and the catalog has the tile of the
    floored position. Files are checked by opening them, and `initialize`
    lists a directory with `readdir`. */
module PosixMap {
  import opened Wrappers
  import opened Samples
  import opened Geo
  import opened Text
  import opened Raster
  import opened Files
  import opened Catalog
  import BoolDem

  /** The errors the director throws. */
  datatype MapError =
    | EmptyGrid
    | MissingFile(path: string)
    | BadCoordinates(error: GeoError)
    | UnreadableDirectory(path: string)
    | InvalidType(typeError: TypeError)

  /** The position of the first catalog entry, in key order, whose file
      does not open; `|grid|` when they all open. */
  function FirstUnopened(grid: Grid, fs: FileSystem): (k: nat)
    ensures k <= |grid|
    ensures k < |grid| ==> !Opens(fs, grid[k].path)
    ensures forall j :: 0 <= j < k ==> Opens(fs, grid[j].path)
    decreases |grid|
  {
    if grid == [] then 0
    else if !Opens(fs, grid[0].path) then 0
    else
      var k := FirstUnopened(grid[1..], fs);
      assert forall j :: 1 <= j < k + 1 ==> grid[j] == grid[1..][j - 1];
      k + 1
  }

  /** The tile a catalog entry yields. */
  function Tile(item: Item, fs: FileSystem, littleEndian: bool, native: Endian): Result<Dem, GeoError> {
    BoolDem.Built(item.meta, fs, item.path, littleEndian, native)
  }

  /** What the constructor ends in: an empty catalog, the first entry
      whose file does not open, the first tile's invalid bounds, or the
      tile of the least key. */
  function Opening(grid: Grid, fs: FileSystem, littleEndian: bool, native: Endian): (r: Result<Dem, MapError>)
    ensures grid == [] ==> r == Err(EmptyGrid)
    ensures grid != [] && FirstUnopened(grid, fs) < |grid| ==> r == Err(MissingFile(grid[FirstUnopened(grid, fs)].path))
    ensures r.Ok? ==> grid != [] && Tile(grid[0], fs, littleEndian, native) == Ok(r.value)
  {
    if grid == [] then Err(EmptyGrid)
    else if FirstUnopened(grid, fs) < |grid| then Err(MissingFile(grid[FirstUnopened(grid, fs)].path))
    else
      match Tile(grid[0], fs, littleEndian, native)
      case Err(e) => Err(BadCoordinates(e))
      case Ok(d) => Ok(d)
  }

  /** What `load` finds for a position: the floored key, validated as a
      coordinate; nothing when the catalog lacks it; else its entry and
      the tile built from it. */
  function Loading(grid: Grid, fs: FileSystem, littleEndian: bool, native: Endian, latitude: real, longitude: real)
    : (r: Result<Option<(Item, Dem)>, MapError>)
    ensures r.Ok? && r.value.Some? ==> r.value.value.0 in grid && r.value.value.0.key == FloorKey(latitude, longitude)
    ensures r.Ok? && r.value.Some? ==> Tile(r.value.value.0, fs, littleEndian, native) == Ok(r.value.value.1)
    ensures r.Ok? ==> (r.value.None? <==> Get(grid, FloorKey(latitude, longitude)).None?)
    ensures !InRange(Floor(latitude) as real, Floor(longitude) as real) ==> r.Err?
  {
    match MakeCoordinate(Floor(latitude) as real, Floor(longitude) as real)
    case Err(e) => Err(BadCoordinates(e))
    case Ok(key) =>
      match Get(grid, key)
      case None => Ok(None)
      case Some(item) =>
        match Tile(item, fs, littleEndian, native)
        case Err(e) => Err(BadCoordinates(e))
        case Ok(d) => Ok(Some((item, d)))
  }

  /** A catalog entry of a one-degree tile keyed by its own corner, as
      `initialize` makes them. */
  predicate UnitEntry(item: Item) {
    item.meta.cellsize * item.meta.nrows as real == 1.0 && item.meta.cellsize * item.meta.ncols as real == 1.0
    && item.meta.yllcorner == item.key.latitude && item.meta.xllcorner == item.key.longitude
    && item.key.latitude.Floor as real == item.key.latitude && item.key.longitude.Floor as real == item.key.longitude
  }

  /** The tile `load` brings in for a position of a catalog of one-degree
      tiles contains that position, so the query that loaded it reads
      inside its bounds and the next query there does not load again. */
  lemma LoadedTileHolds(grid: Grid, fs: FileSystem, littleEndian: bool, native: Endian, latitude: real, longitude: real)
    requires forall i :: 0 <= i < |grid| ==> UnitEntry(grid[i])
    requires var r := Loading(grid, fs, littleEndian, native, latitude, longitude); r.Ok? && r.value.Some?
    ensures var d := Loading(grid, fs, littleEndian, native, latitude, longitude).value.value.1;
      Within(DeriveBounds(d.meta), latitude, longitude)
  {
    var r := Loading(grid, fs, littleEndian, native, latitude, longitude);
    var item := r.value.value.0;
    assert UnitEntry(item);
    assert r.value.value.1.meta == item.meta;
    UnitTileHoldsFlooredPoints(item.meta, latitude, longitude);
  }

  class Map {
    const grid: Grid
    const fs: FileSystem
    const littleEndian: bool
    const native: Endian
    var dem: Dem
    /** The catalog entry the resident tile was built from. */
    ghost var resident: Item

    /** The catalog is a `std::map`, and the resident tile is the tile of
        one of its entries. */
    ghost predicate Valid()
      reads this
    {
      Ordered(grid) && resident in grid && Tile(resident, fs, littleEndian, native) == Ok(dem)
    }

    constructor Of(grid: Grid, fs: FileSystem, littleEndian: bool, native: Endian, dem: Dem, ghost resident: Item)
      requires Ordered(grid) && resident in grid && Tile(resident, fs, littleEndian, native) == Ok(dem)
      ensures this.grid == grid && this.fs == fs && this.littleEndian == littleEndian && this.native == native
      ensures this.dem == dem && this.resident == resident
      ensures Valid()
    {
      this.grid := grid;
      this.fs := fs;
      this.littleEndian := littleEndian;
      this.native := native;
      this.dem := dem;
      this.resident := resident;
    }

    /** `Map(grid)`: an empty catalog is refused, then every file is
        opened in key order and the first that does not open is refused;
        the catalog is kept as given and the resident tile is built from
        its least key. */
    static method Create(grid: Grid, fs: FileSystem, littleEndian: bool, native: Endian)
      returns (r: Result<Map, MapError>)
      requires Ordered(grid)
      ensures r.Err? <==> Opening(grid, fs, littleEndian, native).Err?
      ensures r.Err? ==> r.error == Opening(grid, fs, littleEndian, native).error
      ensures r.Ok? ==> fresh(r.value) && r.value.Valid() && r.value.grid == grid && r.value.fs == fs
      ensures r.Ok? ==> r.value.dem == Opening(grid, fs, littleEndian, native).value && r.value.resident == grid[0]
    {
      if grid == [] {
        return Err(EmptyGrid);
      }
      var k := CheckFiles(grid, fs);
      if k < |grid| {
        return Err(MissingFile(grid[k].path));
      }
      var first := grid[0];
      var d := BoolDem.Construct(first.meta, fs, first.path, littleEndian, native);
      if d.Err? {
        return Err(BadCoordinates(d.error));
      }
      var m := new Map.Of(grid, fs, littleEndian, native, d.value, first);
      return Ok(m);
    }

    /** The constructor's loop: every entry's file opened in turn, up to
        the first one that does not open. */
    static method CheckFiles(grid: Grid, fs: FileSystem) returns (k: nat)
      ensures k == FirstUnopened(grid, fs)
    {
      k := 0;
      while k < |grid| && Opens(fs, grid[k].path)
        invariant k <= FirstUnopened(grid, fs)
      {
        k := k + 1;
      }
    }

    /** `load`: a miss leaves the resident tile in place and answers
        false; a hit replaces the resident tile wholesale and answers
        true. The floored key and the new tile's bounds are validated
        coordinates. */
    method Load(latitude: real, longitude: real) returns (r: Result<bool, MapError>)
      requires Valid()
      modifies this
      ensures Valid()
      ensures var l := Loading(grid, fs, littleEndian, native, latitude, longitude);
        match l
        case Err(e) => r == Err(e) && dem == old(dem) && resident == old(resident)
        case Ok(None) => r == Ok(false) && dem == old(dem) && resident == old(resident)
        case Ok(Some((item, d))) => r == Ok(true) && dem == d && resident == item
    {
      var key := MakeCoordinate(Floor(latitude) as real, Floor(longitude) as real);
      if key.Err? {
        return Err(BadCoordinates(key.error));
      }
      var item := Get(grid, key.value);
      if item.None? {
        return Ok(false);
      }
      var d := BoolDem.Construct(item.value.meta, fs, item.value.path, littleEndian, native);
      if d.Err? {
        return Err(BadCoordinates(d.error));
      }
      dem := d.value;
      resident := item.value;
      return Ok(true);
    }

    /** `altitude`: answered by the resident tile when it covers the
        position; otherwise by the tile `load` brings in, or with the
        resident's no-data value when the catalog has none. */
    method Altitude(latitude: real, longitude: real) returns (r: Result<Lookup<Int16>, MapError>)
      requires Valid()
      modifies this
      ensures Valid()
      ensures Within(DeriveBounds(old(dem).meta), latitude, longitude) ==>
        dem == old(dem) && r == Ok(Raster.Altitude(dem, latitude, longitude))
      ensures !Within(DeriveBounds(old(dem).meta), latitude, longitude) ==>
        match Loading(grid, fs, littleEndian, native, latitude, longitude)
        case Err(e) => r == Err(e) && dem == old(dem)
        case Ok(None) => r == Ok(Defined(old(dem).meta.nodata)) && dem == old(dem)
        case Ok(Some((_, d))) => dem == d && r == Ok(Raster.Altitude(d, latitude, longitude))
    {
      if !Within(DeriveBounds(dem.meta), latitude, longitude) {
        var loaded := Load(latitude, longitude);
        if loaded.Err? {
          return Err(loaded.error);
        }
        if !loaded.value {
          return Ok(Defined(dem.meta.nodata));
        }
      }
      return Ok(Raster.Altitude(dem, latitude, longitude));
    }

    /** `interpolated_altitude`: routed as `altitude`, the no-data value
        converted to a real. */
    method InterpolatedAltitude(latitude: real, longitude: real) returns (r: Result<Lookup<real>, MapError>)
      requires Valid()
      modifies this
      ensures Valid()
      ensures Within(DeriveBounds(old(dem).meta), latitude, longitude) ==>
        dem == old(dem) && r == Ok(Interpolated(dem, latitude, longitude))
      ensures !Within(DeriveBounds(old(dem).meta), latitude, longitude) ==>
        match Loading(grid, fs, littleEndian, native, latitude, longitude)
        case Err(e) => r == Err(e) && dem == old(dem)
        case Ok(None) => r == Ok(Defined(old(dem).meta.nodata as real)) && dem == old(dem)
        case Ok(Some((_, d))) => dem == d && r == Ok(Interpolated(d, latitude, longitude))
    {
      if !Within(DeriveBounds(dem.meta), latitude, longitude) {
        var loaded := Load(latitude, longitude);
        if loaded.Err? {
          return Err(loaded.error);
        }
        if !loaded.value {
          return Ok(Defined(dem.meta.nodata as real));
        }
      }
      return Ok(Interpolated(dem, latitude, longitude));
    }
  }

  /** The paths `initialize` collects from a listing of `dir`: the
      directory and the name of every entry that is not a directory,
      concatenated as they are. */
  function Listed(dir: string, entries: seq<Entry>): (paths: seq<string>)
    ensures |paths| <= |entries|
    decreases |entries|
  {
    if entries == [] then []
    else
      var e := entries[|entries| - 1];
      Listed(dir, entries[..|entries| - 1]) + (if e.kind != Directory then [dir + e.name] else [])
  }

  /** The candidates of the second loop: each path with the text after
      its last separator as the name tested against the pattern. */
  function Candidates(paths: seq<string>): (files: seq<Candidate>)
    ensures |files| == |paths|
    ensures forall i :: 0 <= i < |paths| ==> files[i] == Candidate(Basename(paths[i]), paths[i])
  {
    seq(|paths|, i requires 0 <= i < |paths| => Candidate(Basename(paths[i]), paths[i]))
  }

  /** `initialize`: a directory that cannot be listed is an error; the
      paths of its non-directory entries are collected, then each whose
      file name matches is catalogued under the metadata given. */
  method Initialize(fs: FileSystem, dir: string, nrows: nat, ncols: nat, cellsize: real, nodata: Int16)
    returns (r: Result<Grid, MapError>)
    ensures dir !in fs.listings ==> r == Err(UnreadableDirectory(dir))
    ensures dir in fs.listings ==>
      match Catalogued(Candidates(Listed(dir, fs.listings[dir])), nrows, ncols, cellsize, nodata)
      case Err(e) => r == Err(InvalidType(e))
      case Ok(g) => r == Ok(g)
  {
    if dir !in fs.listings {
      return Err(UnreadableDirectory(dir));
    }
    var paths := ListFiles(dir, fs.listings[dir]);
    var grid := BuildCatalogue(Candidates(paths), nrows, ncols, cellsize, nodata);
    if grid.Err? {
      return Err(InvalidType(grid.error));
    }
    return Ok(grid.value);
  }

  /** The listing loop of `initialize`. */
  method ListFiles(dir: string, entries: seq<Entry>) returns (paths: seq<string>)
    ensures paths == Listed(dir, entries)
  {
    paths := [];
    var k := 0;
    while k < |entries|
      invariant k <= |entries|
      invariant paths == Listed(dir, entries[..k])
    {
      assert entries[..k + 1][..k] == entries[..k];
      if entries[k].kind != Directory {
        paths := paths + [dir + entries[k].name];
      }
      k := k + 1;
    }
    assert entries[..k] == entries;
  }

  /** Every listed path comes from an entry that is not a directory, and
      every such entry is listed. */
  lemma {:induction false} ListedIsNonDirectories(dir: string, entries: seq<Entry>, p: string)
    ensures p in Listed(dir, entries)
        <==> exists j :: 0 <= j < |entries| && entries[j].kind != Directory && p == dir + entries[j].name
    decreases |entries|
  {
    if entries != [] {
      var init := entries[..|entries| - 1];
      ListedIsNonDirectories(dir, init, p);
      if exists j :: 0 <= j < |entries| && entries[j].kind != Directory && p == dir + entries[j].name {
        var j :| 0 <= j < |entries| && entries[j].kind != Directory && p == dir + entries[j].name;
        if j < |entries| - 1 {
          assert init[j] == entries[j];
        }
      }
      if p in Listed(dir, init) {
        var j :| 0 <= j < |init| && init[j].kind != Directory && p == dir + init[j].name;
        assert entries[j] == init[j];
      }
    }
  }

  /** A tile in a directory named with a trailing separator is tested
      under its own name. */
  lemma SeparatedDirectoryAccepted(dir: string, latitude: int, longitude: int)
    ensures var name := Render(latitude) + "_" + Render(longitude) + ".bin";
      Basename(dir + "/" + name) == name
  {
    var name := Render(latitude) + "_" + Render(longitude) + ".bin";
    TileNameWithoutSeparator(latitude, longitude);
    BasenameOfJoin(dir, name);
    assert dir + "/" + name == dir + ['/'] + name;
  }

  /** The path is the directory and the entry's name concatenated, so a
      directory named without a trailing separator, whose last component
      starts with a letter, makes that component part of every name
      tested, and no tile is accepted. */
  lemma UnseparatedDirectoryRejected(dir: string, latitude: int, longitude: int)
    requires dir != [] && 'a' <= dir[0] <= 'z'
    requires forall k :: 0 <= k < |dir| ==> !IsPathSeparator(dir[k]) && dir[k] != '_'
    ensures Accept(Basename(dir + Render(latitude) + "_" + Render(longitude) + ".bin")) == None
  {
    var a, b := Render(latitude), Render(longitude);
    var head := dir + a;
    var path := head + "_" + b + ".bin";
    PlainJoinedName(dir, latitude, longitude);
    BasenameOfPlain(path);
    LetterLedHead(dir, a);
    MatchTileNameOfParts(head, b);
  }

  /** A directory component led by a letter and followed by a number
      holds no underscore and is no signed digit group. */
  lemma LetterLedHead(dir: string, a: string)
    requires dir != [] && 'a' <= dir[0] <= 'z'
    requires forall k :: 0 <= k < |dir| ==> dir[k] != '_'
    requires a != [] && (IsDigit(a[0]) || a[0] == '-') && AllDigits(a[1..])
    ensures forall k :: 0 <= k < |dir + a| ==> (dir + a)[k] != '_'
    ensures !SignedDigits(dir + a, 2)
  {
    var head := dir + a;
    forall k | 0 <= k < |head|
      ensures head[k] != '_'
    {
      if k > |dir| {
        assert head[k] == a[1..][k - |dir| - 1];
      }
    }
    assert head[0] == dir[0];
  }

  lemma PlainJoinedName(dir: string, latitude: int, longitude: int)
    requires forall k :: 0 <= k < |dir| ==> !IsPathSeparator(dir[k])
    ensures var path := dir + Render(latitude) + "_" + Render(longitude) + ".bin";
      forall k :: 0 <= k < |path| ==> !IsPathSeparator(path[k])
  {
    var name := Render(latitude) + "_" + Render(longitude) + ".bin";
    TileNameWithoutSeparator(latitude, longitude);
    var path := dir + name;
    assert path == dir + Render(latitude) + "_" + Render(longitude) + ".bin";
    forall k | 0 <= k < |path|
      ensures !IsPathSeparator(path[k])
    {
      if k >= |dir| {
        assert path[k] == name[k - |dir|];
      }
    }
  }
}
