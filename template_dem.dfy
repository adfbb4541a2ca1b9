/** The tile of include/DEM/DEM.hpp: the sample byte order is a template
    argument compared with the host's by exclusive-or, and the constructor
    throws when the file is missing or cannot be read. */
module TemplateDem {
  import opened Wrappers
  import opened Samples
  import opened Geo
  import opened Raster
  import opened Files

  /** The errors the constructor throws: a corner of the bounds out of
      range, a missing file, a file that cannot be read. */
  datatype DemError = InvalidBounds(error: GeoError) | FileNotFound(path: string) | ReadFailed(path: string)

  /** With the exclusive-or test the samples are decoded in the requested
      byte order, on either host. */
  lemma XorReadOrder(requested: Endian, native: Endian)
    ensures (if ReversesXor(requested, native) then Flip(native) else native) == requested
  {
  }

  /** `read`: failure when the file does not open; otherwise its samples,
      each passed through `serialize`, cut into rows of `ncols`. */
  method Read(t: DemType, fs: FileSystem, path: string, endianness: Endian, native: Endian)
    returns (r: Option<seq<seq<Int16>>>)
    ensures r.None? <==> !Opens(fs, path)
    ensures Opens(fs, path) ==> r.value == Decoded(t, fs.contents[path], endianness).data
  {
    if !Opens(fs, path) {
      return None;
    }
    var rows := DecodeRows(fs.contents[path], t.ncols, native, ReversesXor(endianness, native));
    XorReadOrder(endianness, native);
    return Some(rows);
  }

  /** The constructor `DEM(type, filepath)`: the bounds follow from the
      metadata, each corner validated; then a missing file and a file
      that cannot be read are errors, in that order. */
  method Construct(t: DemType, fs: FileSystem, path: string, endianness: Endian, native: Endian)
    returns (r: Result<Dem, DemError>)
    ensures MakeBounds(t).Err? ==> r == Err(InvalidBounds(MakeBounds(t).error))
    ensures MakeBounds(t).Ok? && !Exists(fs, path) ==> r == Err(FileNotFound(path))
    ensures MakeBounds(t).Ok? && Exists(fs, path) && !Opens(fs, path) ==> r == Err(ReadFailed(path))
    ensures MakeBounds(t).Ok? && Exists(fs, path) && Opens(fs, path) ==> r == Ok(Decoded(t, fs.contents[path], endianness))
  {
    var bounds := MakeBounds(t);
    if bounds.Err? {
      return Err(InvalidBounds(bounds.error));
    }
    if !Exists(fs, path) {
      return Err(FileNotFound(path));
    }
    var rows := Read(t, fs, path, endianness, native);
    if rows.None? {
      return Err(ReadFailed(path));
    }
    return Ok(Dem(t, rows.value));
  }
}
