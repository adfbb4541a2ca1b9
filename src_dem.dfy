/** The non-template tile of src/DEM.cpp: samples are `int16_t` read in
    host byte order without `serialize`, a read failure is not thrown, and
    the nearest query does not clamp its indices. */
module SrcDem {
  import opened Wrappers
  import opened Samples
  import opened Geo
  import opened Raster
  import opened Files

  /** `DEM::read`: failure when the file does not open; otherwise its
      samples in host byte order, cut into rows. */
  method Read(t: DemType, fs: FileSystem, path: string, native: Endian)
    returns (r: Option<seq<seq<Int16>>>)
    ensures r.None? <==> !Opens(fs, path)
    ensures Opens(fs, path) ==> r.value == Decoded(t, fs.contents[path], native).data
  {
    if !Opens(fs, path) {
      return None;
    }
    var rows := DecodeRows(fs.contents[path], t.ncols, native, false);
    return Some(rows);
  }

  /** The tile the constructor builds from metadata `t` and the file at
      `path`. */
  function Loaded(t: DemType, fs: FileSystem, path: string, native: Endian): Dem {
    if Opens(fs, path) then Decoded(t, fs.contents[path], native) else Dem(t, [])
  }

  /** `DEM::DEM`: always succeeds; the grid stays empty when the file
      cannot be read. */
  method Construct(t: DemType, fs: FileSystem, path: string, native: Endian) returns (d: Dem)
    ensures Opens(fs, path) ==> d == Decoded(t, fs.contents[path], native)
    ensures !Opens(fs, path) ==> d == Dem(t, [])
    ensures d == Loaded(t, fs, path, native)
  {
    var rows := Read(t, fs, path, native);
    if rows.None? {
      return Dem(t, []);
    }
    return Dem(t, rows.value);
  }

  /** A tile written in the host's byte order is read as written. */
  lemma {:induction false} HostOrderTileRead(t: DemType, vs: seq<Int16>, native: Endian)
    ensures Decoded(t, EncodeAs(vs, native), native) == Dem(t, Rows(vs, t.ncols))
  {
    DecodeEncode(vs, native);
  }

  /** Without `serialize`, a tile written in the other byte order is read
      with every sample byte-swapped. */
  lemma {:induction false} ForeignOrderTileIsSwapped(t: DemType, vs: seq<Int16>, native: Endian)
    ensures Decoded(t, EncodeAs(vs, Flip(native)), native) == Dem(t, Rows(SwapAll(vs), t.ncols))
  {
    assert Flip(Flip(native)) == native;
    DecodeOtherOrder(vs, Flip(native));
  }

  /** `DEM::altitude`: the sample at the rounded position, with no clamp
      of a position equal to the grid's dimensions. */
  function Altitude(d: Dem, latitude: real, longitude: real): Lookup<Int16> {
    var rc := IndexOf(d.meta, latitude, longitude);
    if IsNodataIndex(d.meta, rc) then Defined(d.meta.nodata)
    else
      var r := Round(rc.row);
      var c := Round(rc.column);
      if r < 0 || c < 0 then Undefined else At(d.data, r, c)
  }

  /** Where the rounded position lies inside the grid's dimensions the
      unclamped query answers as the clamped one does. */
  lemma AltitudeAgreesAwayFromEdges(d: Dem, latitude: real, longitude: real)
    requires var rc := IndexOf(d.meta, latitude, longitude);
      Round(rc.row) < d.meta.nrows && Round(rc.column) < d.meta.ncols
    ensures Altitude(d, latitude, longitude) == Raster.Altitude(d, latitude, longitude)
  {
  }

  /** On the southern edge of a grid of exactly `nrows` rows the row
      position rounds to `nrows`, and the unclamped query reads past the
      last row where the clamped one reads the last row. */
  lemma {:induction false} AltitudeReadsPastSouthEdge(d: Dem, longitude: real)
    requires Complete(d) && |d.data| == d.meta.nrows && d.meta.nodata < 0
    requires Within(DeriveBounds(d.meta), d.meta.yllcorner, longitude)
    ensures Altitude(d, d.meta.yllcorner, longitude) == Undefined
    ensures Raster.Altitude(d, d.meta.yllcorner, longitude).Defined?
  {
    var t := d.meta;
    WithinNonDegenerate(t, t.yllcorner, longitude);
    assert (t.cellsize * t.nrows as real) / t.cellsize == t.nrows as real;
    assert IndexOf(t, t.yllcorner, longitude).row == t.nrows as real;
    assert Round(t.nrows as real) == t.nrows;
    AltitudeIsNearestSample(d, t.yllcorner, longitude);
  }

  /** Half a cell west of the eastern edge the column position rounds to
      `ncols`: the unclamped query reads past the end of the row, the
      clamped one reads the row's last sample. */
  lemma {:induction false} AltitudeReadsPastEastEdge(d: Dem, r: nat)
    requires Complete(d) && d.meta.cellsize > 0.0 && d.meta.nodata < 0
    requires 1 <= r < d.meta.nrows && d.meta.ncols > 0
    ensures var p := GridPoint(d.meta, r as real, d.meta.ncols as real - 0.5);
      Altitude(d, p.latitude, p.longitude) == Undefined
      && Raster.Altitude(d, p.latitude, p.longitude) == Defined(d.data[r][d.meta.ncols - 1])
  {
    var t := d.meta;
    var x := t.ncols as real - 0.5;
    IndexOfGridPoint(t, r as real, x);
    assert Round(x) == t.ncols;
    assert Round(r as real) == r;
  }
}
