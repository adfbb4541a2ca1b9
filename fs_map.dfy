/** The tile director of include/Map.hpp: the director of Map.hpp with
    files checked by `std::filesystem::exists`, and `initialize` listing
    a directory with `std::filesystem::directory_iterator`, keeping its
    regular files only. */
module FsMap {
  import opened Wrappers
  import opened Samples
  import opened Geo
  import opened Text
  import opened Raster
  import opened Files
  import opened Catalog
  import BoolDem
  import PosixMap

  /** The position of the first catalog entry, in key order, whose file
      does not exist; `|grid|` when they all exist. */
  function FirstMissing(grid: Grid, fs: FileSystem): (k: nat)
    ensures k <= |grid|
    ensures k < |grid| ==> !Exists(fs, grid[k].path)
    ensures forall j :: 0 <= j < k ==> Exists(fs, grid[j].path)
    decreases |grid|
  {
    if grid == [] then 0
    else if !Exists(fs, grid[0].path) then 0
    else
      var k := FirstMissing(grid[1..], fs);
      assert forall j :: 1 <= j < k + 1 ==> grid[j] == grid[1..][j - 1];
      k + 1
  }

  /** What the constructor ends in: an empty catalog, the first entry
      whose file does not exist, the first tile's invalid bounds, or the
      tile of the least key. */
  function Opening(grid: Grid, fs: FileSystem, littleEndian: bool, native: Endian): (r: Result<Dem, PosixMap.MapError>)
    ensures grid == [] ==> r == Err(PosixMap.EmptyGrid)
    ensures grid != [] && FirstMissing(grid, fs) < |grid| ==> r == Err(PosixMap.MissingFile(grid[FirstMissing(grid, fs)].path))
    ensures r.Ok? ==> grid != [] && PosixMap.Tile(grid[0], fs, littleEndian, native) == Ok(r.value)
  {
    if grid == [] then Err(PosixMap.EmptyGrid)
    else if FirstMissing(grid, fs) < |grid| then Err(PosixMap.MissingFile(grid[FirstMissing(grid, fs)].path))
    else
      match PosixMap.Tile(grid[0], fs, littleEndian, native)
      case Err(e) => Err(PosixMap.BadCoordinates(e))
      case Ok(d) => Ok(d)
  }

  class Map {
    const grid: Grid
    const fs: FileSystem
    const littleEndian: bool
    const native: Endian
    var dem: Dem
    /** The catalog entry the resident tile was built from. */
    ghost var resident: Item

    /** The catalog is a `std::map`, and the resident tile is the tile of
        one of its entries. */
    ghost predicate Valid()
      reads this
    {
      Ordered(grid) && resident in grid && PosixMap.Tile(resident, fs, littleEndian, native) == Ok(dem)
    }

    constructor Of(grid: Grid, fs: FileSystem, littleEndian: bool, native: Endian, dem: Dem, ghost resident: Item)
      requires Ordered(grid) && resident in grid && PosixMap.Tile(resident, fs, littleEndian, native) == Ok(dem)
      ensures this.grid == grid && this.fs == fs && this.littleEndian == littleEndian && this.native == native
      ensures this.dem == dem && this.resident == resident
      ensures Valid()
    {
      this.grid := grid;
      this.fs := fs;
      this.littleEndian := littleEndian;
      this.native := native;
      this.dem := dem;
      this.resident := resident;
    }

    /** `Map(grid)`: an empty catalog is refused, then every file is
        looked up in key order and the first that does not exist is refused;
        the catalog is kept as given and the resident tile is built from
        its least key. */
    static method Create(grid: Grid, fs: FileSystem, littleEndian: bool, native: Endian)
      returns (r: Result<Map, PosixMap.MapError>)
      requires Ordered(grid)
      ensures r.Err? <==> Opening(grid, fs, littleEndian, native).Err?
      ensures r.Err? ==> r.error == Opening(grid, fs, littleEndian, native).error
      ensures r.Ok? ==> fresh(r.value) && r.value.Valid() && r.value.grid == grid && r.value.fs == fs
      ensures r.Ok? ==> r.value.dem == Opening(grid, fs, littleEndian, native).value && r.value.resident == grid[0]
    {
      if grid == [] {
        return Err(PosixMap.EmptyGrid);
      }
      var k := CheckFiles(grid, fs);
      if k < |grid| {
        return Err(PosixMap.MissingFile(grid[k].path));
      }
      var first := grid[0];
      var d := BoolDem.Construct(first.meta, fs, first.path, littleEndian, native);
      if d.Err? {
        return Err(PosixMap.BadCoordinates(d.error));
      }
      var m := new Map.Of(grid, fs, littleEndian, native, d.value, first);
      return Ok(m);
    }

    /** The constructor's loop: every entry's file looked up in turn, up
        to the first one that does not exist. */
    static method CheckFiles(grid: Grid, fs: FileSystem) returns (k: nat)
      ensures k == FirstMissing(grid, fs)
    {
      k := 0;
      while k < |grid| && Exists(fs, grid[k].path)
        invariant k <= FirstMissing(grid, fs)
      {
        k := k + 1;
      }
    }

    /** `load`: a miss leaves the resident tile in place and answers
        false; a hit replaces the resident tile wholesale and answers
        true. The floored key and the new tile's bounds are validated
        coordinates. */
    method Load(latitude: real, longitude: real) returns (r: Result<bool, PosixMap.MapError>)
      requires Valid()
      modifies this
      ensures Valid()
      ensures var l := PosixMap.Loading(grid, fs, littleEndian, native, latitude, longitude);
        match l
        case Err(e) => r == Err(e) && dem == old(dem) && resident == old(resident)
        case Ok(None) => r == Ok(false) && dem == old(dem) && resident == old(resident)
        case Ok(Some((item, d))) => r == Ok(true) && dem == d && resident == item
    {
      var key := MakeCoordinate(Floor(latitude) as real, Floor(longitude) as real);
      if key.Err? {
        return Err(PosixMap.BadCoordinates(key.error));
      }
      var item := Get(grid, key.value);
      if item.None? {
        return Ok(false);
      }
      var d := BoolDem.Construct(item.value.meta, fs, item.value.path, littleEndian, native);
      if d.Err? {
        return Err(PosixMap.BadCoordinates(d.error));
      }
      dem := d.value;
      resident := item.value;
      return Ok(true);
    }

    /** `altitude`: answered by the resident tile when it covers the
        position; otherwise by the tile `load` brings in, or with the
        resident's no-data value when the catalog has none. */
    method Altitude(latitude: real, longitude: real) returns (r: Result<Lookup<Int16>, PosixMap.MapError>)
      requires Valid()
      modifies this
      ensures Valid()
      ensures Within(DeriveBounds(old(dem).meta), latitude, longitude) ==>
        dem == old(dem) && r == Ok(Raster.Altitude(dem, latitude, longitude))
      ensures !Within(DeriveBounds(old(dem).meta), latitude, longitude) ==>
        match PosixMap.Loading(grid, fs, littleEndian, native, latitude, longitude)
        case Err(e) => r == Err(e) && dem == old(dem)
        case Ok(None) => r == Ok(Defined(old(dem).meta.nodata)) && dem == old(dem)
        case Ok(Some((_, d))) => dem == d && r == Ok(Raster.Altitude(d, latitude, longitude))
    {
      if !Within(DeriveBounds(dem.meta), latitude, longitude) {
        var loaded := Load(latitude, longitude);
        if loaded.Err? {
          return Err(loaded.error);
        }
        if !loaded.value {
          return Ok(Defined(dem.meta.nodata));
        }
      }
      return Ok(Raster.Altitude(dem, latitude, longitude));
    }

    /** `interpolated_altitude`: routed as `altitude`, the no-data value
        converted to a real. */
    method InterpolatedAltitude(latitude: real, longitude: real) returns (r: Result<Lookup<real>, PosixMap.MapError>)
      requires Valid()
      modifies this
      ensures Valid()
      ensures Within(DeriveBounds(old(dem).meta), latitude, longitude) ==>
        dem == old(dem) && r == Ok(Interpolated(dem, latitude, longitude))
      ensures !Within(DeriveBounds(old(dem).meta), latitude, longitude) ==>
        match PosixMap.Loading(grid, fs, littleEndian, native, latitude, longitude)
        case Err(e) => r == Err(e) && dem == old(dem)
        case Ok(None) => r == Ok(Defined(old(dem).meta.nodata as real)) && dem == old(dem)
        case Ok(Some((_, d))) => dem == d && r == Ok(Interpolated(d, latitude, longitude))
    {
      if !Within(DeriveBounds(dem.meta), latitude, longitude) {
        var loaded := Load(latitude, longitude);
        if loaded.Err? {
          return Err(loaded.error);
        }
        if !loaded.value {
          return Ok(Defined(dem.meta.nodata as real));
        }
      }
      return Ok(Interpolated(dem, latitude, longitude));
    }
  }

  /** `initialize`: a directory that cannot be listed is an error (the
      `filesystem_error` rethrown); each regular file whose name matches
      is catalogued under the metadata given. */
  method Initialize(fs: FileSystem, dir: string, nrows: nat, ncols: nat, cellsize: real, nodata: Int16)
    returns (r: Result<Grid, PosixMap.MapError>)
    ensures dir !in fs.listings ==> r == Err(PosixMap.UnreadableDirectory(dir))
    ensures dir in fs.listings ==>
      match Catalogued(RegularFiles(dir, fs.listings[dir]), nrows, ncols, cellsize, nodata)
      case Err(e) => r == Err(PosixMap.InvalidType(e))
      case Ok(g) => r == Ok(g)
  {
    if dir !in fs.listings {
      return Err(PosixMap.UnreadableDirectory(dir));
    }
    var grid := CatalogueRegularFiles(dir, fs.listings[dir], nrows, ncols, cellsize, nodata);
    if grid.Err? {
      return Err(PosixMap.InvalidType(grid.error));
    }
    return Ok(grid.value);
  }
}
