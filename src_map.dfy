/** The tile director of src/Map.cpp: the catalog and resident-tile slot
    of the header directors over the non-template tile of src/DEM.cpp,
    whose construction never fails. Keys are plain coordinate pairs (the
    header declaring `DEM::Coordinate` is not part of this model), so
    `load` cannot throw, and `InitializeDEMMap` gives every accepted tile
    the same fixed metadata. */
module SrcMap {
  import opened Wrappers
  import opened Samples
  import opened Geo
  import opened Raster
  import opened Files
  import opened Catalog
  import SrcDem
  import FsMap

  /** The errors the director throws. */
  datatype MapError = EmptyMap | MissingFile(path: string) | UnreadableDirectory(path: string)

  /** The tile a catalog entry yields. */
  function Tile(item: Item, fs: FileSystem, native: Endian): Dem {
    SrcDem.Loaded(item.meta, fs, item.path, native)
  }

  /** What `load` finds for a position: nothing when the catalog lacks
      the floored key, else its entry. */
  function Loading(grid: Grid, latitude: real, longitude: real): (r: Option<Item>)
    ensures r.Some? ==> r.value in grid && r.value.key == FloorKey(latitude, longitude)
    ensures r.None? <==> forall i :: 0 <= i < |grid| ==> grid[i].key != FloorKey(latitude, longitude)
  {
    Get(grid, FloorKey(latitude, longitude))
  }

  /** The metadata `InitializeDEMMap` gives the tile at (`lat`, `lon`):
      3600 by 3600 samples, a cell size of 0.000277777 degrees and the
      least `int16_t` as no-data value. */
  function FixedType(lat: real, lon: real): DemType {
    DemType(3600, 3600, lat, lon, 0.000277777, Int16Min)
  }

  class Map {
    const grid: Grid
    const fs: FileSystem
    const native: Endian
    var dem: Dem
    /** The catalog entry the resident tile was built from. */
    ghost var resident: Item

    ghost predicate Valid()
      reads this
    {
      Ordered(grid) && resident in grid && dem == Tile(resident, fs, native)
    }

    constructor Of(grid: Grid, fs: FileSystem, native: Endian, dem: Dem, ghost resident: Item)
      requires Ordered(grid) && resident in grid && dem == Tile(resident, fs, native)
      ensures this.grid == grid && this.fs == fs && this.native == native
      ensures this.resident == resident && this.dem == Tile(resident, fs, native)
      ensures Valid()
    {
      this.grid := grid;
      this.fs := fs;
      this.native := native;
      this.resident := resident;
      this.dem := dem;
    }

    /** `Map::Map`: an empty catalog is refused, then the first entry, in
        key order, whose file does not exist; otherwise the catalog is kept
        as given and the resident tile is built from its least key. */
    static method Create(grid: Grid, fs: FileSystem, native: Endian) returns (r: Result<Map, MapError>)
      requires Ordered(grid)
      ensures grid == [] ==> r == Err(EmptyMap)
      ensures grid != [] && FsMap.FirstMissing(grid, fs) < |grid| ==> r == Err(MissingFile(grid[FsMap.FirstMissing(grid, fs)].path))
      ensures grid != [] && FsMap.FirstMissing(grid, fs) == |grid| ==>
        r.Ok? && fresh(r.value) && r.value.Valid() && r.value.grid == grid && r.value.fs == fs
        && r.value.resident == grid[0] && r.value.dem == Tile(grid[0], fs, native)
    {
      if grid == [] {
        return Err(EmptyMap);
      }
      var k := FsMap.Map.CheckFiles(grid, fs);
      if k < |grid| {
        return Err(MissingFile(grid[k].path));
      }
      var d := SrcDem.Construct(grid[0].meta, fs, grid[0].path, native);
      var m := new Map.Of(grid, fs, native, d, grid[0]);
      return Ok(m);
    }


    /** `Map::load`: a miss leaves the resident tile in place and answers
        false; a hit replaces it wholesale and answers true. */
    method Load(latitude: real, longitude: real) returns (loaded: bool)
      requires Valid()
      modifies this
      ensures Valid()
      ensures match Loading(grid, latitude, longitude)
        case None => !loaded && dem == old(dem) && resident == old(resident)
        case Some(item) => loaded && dem == Tile(item, fs, native) && resident == item
    {
      var item := Get(grid, FloorKey(latitude, longitude));
      if item.None? {
        return false;
      }
      dem := SrcDem.Construct(item.value.meta, fs, item.value.path, native);
      resident := item.value;
      return true;
    }

    /** `Map::altitude`: answered by the resident tile when it covers the
        position; otherwise by the tile `load` brings in, or with the
        resident's no-data value when the catalog has none. */
    method Altitude(latitude: real, longitude: real) returns (r: Lookup<Int16>)
      requires Valid()
      modifies this
      ensures Valid()
      ensures Within(DeriveBounds(old(dem).meta), latitude, longitude) ==>
        dem == old(dem) && r == SrcDem.Altitude(dem, latitude, longitude)
      ensures !Within(DeriveBounds(old(dem).meta), latitude, longitude) ==>
        match Loading(grid, latitude, longitude)
        case None => r == Defined(old(dem).meta.nodata) && dem == old(dem)
        case Some(item) => dem == Tile(item, fs, native) && r == SrcDem.Altitude(dem, latitude, longitude)
    {
      if !Within(DeriveBounds(dem.meta), latitude, longitude) {
        var loaded := Load(latitude, longitude);
        if !loaded {
          return Defined(dem.meta.nodata);
        }
      }
      return SrcDem.Altitude(dem, latitude, longitude);
    }

    /** `Map::interpolated_altitude`: routed as `altitude`. */
    method InterpolatedAltitude(latitude: real, longitude: real) returns (r: Lookup<real>)
      requires Valid()
      modifies this
      ensures Valid()
      ensures Within(DeriveBounds(old(dem).meta), latitude, longitude) ==>
        dem == old(dem) && r == Interpolated(dem, latitude, longitude)
      ensures !Within(DeriveBounds(old(dem).meta), latitude, longitude) ==>
        match Loading(grid, latitude, longitude)
        case None => r == Defined(old(dem).meta.nodata as real) && dem == old(dem)
        case Some(item) => dem == Tile(item, fs, native) && r == Interpolated(dem, latitude, longitude)
    {
      if !Within(DeriveBounds(dem.meta), latitude, longitude) {
        var loaded := Load(latitude, longitude);
        if !loaded {
          return Defined(dem.meta.nodata as real);
        }
      }
      return Interpolated(dem, latitude, longitude);
    }
  }

  /** `InitializeDEMMap`: a directory that cannot be listed is an error;
      each regular file whose name matches is catalogued with the fixed
      metadata, which never makes the catalog fail. */
  method InitializeDEMMap(fs: FileSystem, dir: string) returns (r: Result<Grid, MapError>)
    ensures dir !in fs.listings ==> r == Err(UnreadableDirectory(dir))
    ensures dir in fs.listings ==>
      r == Ok(Catalogue(RegularFiles(dir, fs.listings[dir]), 3600, 3600, 0.000277777, Int16Min))
  {
    if dir !in fs.listings {
      return Err(UnreadableDirectory(dir));
    }
    var grid := CatalogueRegularFiles(dir, fs.listings[dir], 3600, 3600, 0.000277777, Int16Min);
    return Ok(grid.value);
  }

  /** Every entry of the catalog `InitializeDEMMap` builds holds the fixed
      metadata of its own key. */
  lemma {:induction false} FixedCatalogueEntries(files: seq<Candidate>, key: Coordinate)
    ensures var g := Catalogue(files, 3600, 3600, 0.000277777, Int16Min);
      Get(g, key).Some? ==> Get(g, key).value.meta == FixedType(key.latitude, key.longitude)
  {
    CatalogueLookup(files, 3600, 3600, 0.000277777, Int16Min, key);
  }
}
