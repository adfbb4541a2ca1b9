/** The tile of include/DEM.hpp: the sample byte order is a `bool
    little_endian` template argument, `serialize` keeps a value only when
    little-endian data is read on a little-endian host, and a read failure
    is never thrown. */
module BoolDem {
  import opened Wrappers
  import opened Samples
  import opened Geo
  import opened Raster
  import opened Files

  /** `read`: failure when the file does not open; otherwise its samples,
      each passed through the conjunction `serialize`, cut into rows. */
  method Read(t: DemType, fs: FileSystem, path: string, littleEndian: bool, native: Endian)
    returns (r: Option<seq<seq<Int16>>>)
    ensures r.None? <==> !Opens(fs, path)
    ensures Opens(fs, path) ==> r.value == Decoded(t, fs.contents[path], AndDecodedOrder(littleEndian, native)).data
  {
    if !Opens(fs, path) {
      return None;
    }
    var rows := DecodeRows(fs.contents[path], t.ncols, native, ReversesAnd(littleEndian, native));
    return Some(rows);
  }

  /** The tile the constructor builds from metadata `t` and the file at
      `path`. */
  function Loaded(t: DemType, fs: FileSystem, path: string, littleEndian: bool, native: Endian): Dem {
    if Opens(fs, path) then Decoded(t, fs.contents[path], AndDecodedOrder(littleEndian, native)) else Dem(t, [])
  }

  /** The constructor: the bounds' corners are validated and the first
      one out of range is thrown; the error of a failed read is created
      but not thrown, so the grid then stays empty. */
  method Construct(t: DemType, fs: FileSystem, path: string, littleEndian: bool, native: Endian)
    returns (r: Result<Dem, GeoError>)
    ensures MakeBounds(t).Err? ==> r == Err(MakeBounds(t).error)
    ensures MakeBounds(t).Ok? && Opens(fs, path) ==> r == Ok(Decoded(t, fs.contents[path], AndDecodedOrder(littleEndian, native)))
    ensures MakeBounds(t).Ok? && !Opens(fs, path) ==> r == Ok(Dem(t, []))
  {
    var bounds := MakeBounds(t);
    if bounds.Err? {
      return Err(bounds.error);
    }
    var rows := Read(t, fs, path, littleEndian, native);
    if rows.None? {
      return Ok(Dem(t, []));
    }
    return Ok(Dem(t, rows.value));
  }

  /** What the constructor yields for metadata `t` and the file at
      `path`. */
  function Built(t: DemType, fs: FileSystem, path: string, littleEndian: bool, native: Endian): Result<Dem, GeoError> {
    match MakeBounds(t)
    case Err(e) => Err(e)
    case Ok(_) => Ok(Loaded(t, fs, path, littleEndian, native))
  }

  /** A little-endian tile is read as written, on either host. */
  lemma {:induction false} LittleEndianTileOnAnyHost(t: DemType, vs: seq<Int16>, native: Endian)
    ensures Decoded(t, EncodeAs(vs, Little), AndDecodedOrder(true, native)) == Dem(t, Rows(vs, t.ncols))
  {
    DecodeEncode(vs, Little);
  }

  /** A big-endian tile is read as written on a little-endian host. */
  lemma {:induction false} BigEndianTileOnLittleHost(t: DemType, vs: seq<Int16>)
    ensures Decoded(t, EncodeAs(vs, Big), AndDecodedOrder(false, Little)) == Dem(t, Rows(vs, t.ncols))
  {
    DecodeEncode(vs, Big);
  }

  /** On a big-endian host a big-endian tile is read with every sample
      byte-swapped, because the conjunction test reverses whenever the
      host is not little-endian. */
  lemma {:induction false} BigEndianTileOnBigHostIsSwapped(t: DemType, vs: seq<Int16>)
    ensures Decoded(t, EncodeAs(vs, Big), AndDecodedOrder(false, Big)) == Dem(t, Rows(SwapAll(vs), t.ncols))
  {
    DecodeOtherOrder(vs, Big);
  }

  /** When the file could not be read the grid is empty, and every query
      inside the bounds that is not answered with the no-data value reads
      past the end of it. */
  lemma {:induction false} UnreadTileQueriesUndefined(t: DemType, latitude: real, longitude: real)
    requires Within(DeriveBounds(t), latitude, longitude)
    requires !IsNodataIndex(t, IndexOf(t, latitude, longitude))
    ensures Altitude(Dem(t, []), latitude, longitude) == Undefined
    ensures t.nrows < SizeModulus && t.ncols < SizeModulus ==>
      Interpolated(Dem(t, []), latitude, longitude) == Undefined
  {
    var rc := IndexOf(t, latitude, longitude);
    assert Round(rc.row) >= 0 && Round(rc.column) >= 0;
    assert Trunc(rc.row) >= 0 && Trunc(rc.column) >= 0;
  }
}
