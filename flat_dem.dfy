/** The oldest tile, of DEM.hpp: a one-degree tile named after its
    south-west corner, whose samples are kept in one flat row-major vector
    of `width * width` values read in host byte order, with a nearest
    query, a bilinear query and a square window around a point. */
module FlatDem {
  import opened Wrappers
  import opened Samples
  import opened Geo
  import opened Text
  import opened Raster
  import opened Files

  /** 2^32, the modulus of `unsigned int` arithmetic. */
  const UIntModulus: nat := 0x1_0000_0000

  type UInt32 = x: int | 0 <= x < 0x1_0000_0000

  type Int32 = x: int | -0x8000_0000 <= x < 0x8000_0000

  /** `DEM::Type`: metres between samples, samples per row (and per
      column), and degrees between samples. */
  datatype FlatType = FlatType(resolution: UInt32, width: UInt32, cellsize: Lookup<real>)

  /** `Type(resolution, width, range)`: the cell size is the range spread
      over the width; a zero width divides by zero. */
  function MakeFlatType(resolution: UInt32, width: UInt32, range: real): (t: FlatType)
    ensures t.resolution == resolution && t.width == width
    ensures t.cellsize.Defined? <==> width > 0
    ensures width > 0 ==> t.cellsize.value * width as real == range
  {
    FlatType(resolution, width, if width == 0 then Undefined else Defined(range / width as real))
  }

  /** A tile: its metadata, the south-west corner deduced from its file
      name (`Undefined` when the name has no `_` and the corner is left
      uninitialised), and its samples. */
  datatype FlatDem = FlatDem(meta: FlatType, corner: Lookup<Coordinate>, data: seq<Int16>)

  /** `istringstream(s) >> x` into a floating value: the number at the
      head of `s`, or zero when there is none. */
  function ExtractOrZero(s: string): real {
    match ParseInt(s)
    case Some(v) => v as real
    case None => 0.0
  }

  /** `deduce_filename`: the latitude before the first `_` of the file
      name and the longitude after it. */
  function DeduceFilename(path: string): (c: Lookup<Coordinate>)
    ensures c.Defined? <==> Find(Basename(path), '_') < |Basename(path)|
  {
    var name := Basename(path);
    var k := Find(name, '_');
    if k == |name| then Undefined
    else Defined(Coordinate(ExtractOrZero(name[..k]), ExtractOrZero(name[k + 1..])))
  }

  /** The file name written for a tile is read back as its corner: the
      latitude and longitude written in decimal, an underscore and the
      `.bin` extension. */
  lemma {:induction false} DeduceTileName(dir: string, latitude: int, longitude: int)
    ensures DeduceFilename(dir + ['/'] + Render(latitude) + "_" + Render(longitude) + ".bin")
         == Defined(Coordinate(latitude as real, longitude as real))
  {
    var name := Render(latitude) + "_" + Render(longitude) + ".bin";
    var path := dir + ['/'] + Render(latitude) + "_" + Render(longitude) + ".bin";
    assert path == dir + ['/'] + name;
    TileNameWithoutSeparator(latitude, longitude);
    BasenameOfJoin(dir, name);
    TileNameFields(latitude, longitude);
  }

  /** A tile's file name splits at its first `_` into the two numbers. */
  lemma TileNameFields(latitude: int, longitude: int)
    ensures var name := Render(latitude) + "_" + Render(longitude) + ".bin";
      var k := Find(name, '_');
      k < |name| && ExtractOrZero(name[..k]) == latitude as real
      && ExtractOrZero(name[k + 1..]) == longitude as real
  {
    var a, b := Render(latitude), Render(longitude) + ".bin";
    assert Render(latitude) + "_" + Render(longitude) + ".bin" == a + ['_'] + b;
    SplitAtFirst(a, '_', b);
    assert a + [] == a;
    ParseRenderThen(latitude, []);
    ParseRenderThen(longitude, ".bin");
  }

  /** A line terminator of the regular-expression grammar, which `.` does
      not match. */
  predicate IsLineTerminator(ch: char) {
    ch == '\n' || ch == '\r' || ch == '\U{2028}' || ch == '\U{2029}'
  }

  /** A full match of `\d+_\d+.bin`: digits, `_`, digits, any one
      character other than a line terminator, then `bin`. */
  predicate MatchesTileName(name: string) {
    var k := Find(name, '_');
    0 < k < |name| && AllDigits(name[..k])
    && var rest := name[k + 1..];
       |rest| >= 5 && AllDigits(rest[..|rest| - 4]) && !IsLineTerminator(rest[|rest| - 4])
       && rest[|rest| - 3..] == "bin"
  }

  /** `check_filename` */
  predicate CheckFilename(path: string) {
    MatchesTileName(Basename(path))
  }

  /** Every name of the pattern's shape matches it. */
  lemma {:induction false} TileNameShapeMatches(a: string, b: string, x: char)
    requires |a| > 0 && |b| > 0 && AllDigits(a) && AllDigits(b) && !IsLineTerminator(x)
    ensures MatchesTileName(a + "_" + b + [x] + "bin")
  {
    var rest := b + [x] + "bin";
    assert a + "_" + b + [x] + "bin" == a + ['_'] + rest;
    SplitAtFirst(a, '_', rest);
    assert rest[..|rest| - 4] == b;
    assert rest[|rest| - 3..] == "bin";
  }

  /** Every matching name has the pattern's shape: it splits at its first
      underscore into digits and digits, one more character and `bin`. */
  lemma {:induction false} MatchedNameHasShape(name: string)
    requires MatchesTileName(name)
    ensures var k := Find(name, '_');
      var b := name[k + 1..|name| - 4];
      name == name[..k] + "_" + b + [name[|name| - 4]] + "bin"
      && k > 0 && |b| > 0 && AllDigits(name[..k]) && AllDigits(b) && !IsLineTerminator(name[|name| - 4])
  {
    var k := Find(name, '_');
    var rest := name[k + 1..];
    assert rest[..|rest| - 4] == name[k + 1..|name| - 4];
    assert rest[|rest| - 4] == name[|name| - 4];
    assert name[|name| - 3..] == rest[|rest| - 3..];
    assert name == name[..k] + "_" + name[k + 1..|name| - 4] + [name[|name| - 4]] + name[|name| - 3..];
  }

  /** The pattern has no place for a sign, so a tile of the southern
      hemisphere is rejected. */
  lemma SouthernTileRejected()
    ensures !MatchesTileName("-1_2.bin")
  {
    var name := "-1_2.bin";
    var k := Find(name, '_');
    if 0 < k {
      assert name[..k][0] == '-';
    }
  }

  /** The pattern's unescaped `.` accepts any character before `bin`. */
  lemma AnyCharacterBeforeBin()
    ensures MatchesTileName("1_23bin")
  {
    TileNameShapeMatches("1", "2", '3');
    assert "1" + "_" + "2" + ['3'] + "bin" == "1_23bin";
  }

  /** `read`: every two bytes of the file appended to `data` as a sample
      in host byte order; failure when the file does not open. */
  method Read(fs: FileSystem, path: string, native: Endian) returns (r: Option<seq<Int16>>)
    ensures r.None? <==> !Opens(fs, path)
    ensures Opens(fs, path) ==> r.value == DecodeAs(fs.contents[path], native)
  {
    if !Opens(fs, path) {
      return None;
    }
    var bytes := fs.contents[path];
    var data: seq<Int16> := [];
    var k := 0;
    while 2 * k + 2 <= |bytes|
      invariant k <= |bytes| / 2
      invariant data == DecodeAs(bytes, native)[..k]
    {
      data := data + [ValueAs(bytes[2 * k], bytes[2 * k + 1], native)];
      k := k + 1;
    }
    assert k == |bytes| / 2;
    return Some(data);
  }

  /** The constructor: the result of `check_filename` and the error of a
      failed read are created but never thrown, so construction always
      succeeds; the corner comes from the file name and the samples stay
      empty when the file cannot be read. */
  method Construct(t: FlatType, fs: FileSystem, path: string, native: Endian) returns (d: FlatDem)
    ensures d.meta == t && d.corner == DeduceFilename(path)
    ensures Opens(fs, path) ==> d.data == DecodeAs(fs.contents[path], native)
    ensures !Opens(fs, path) ==> d.data == []
  {
    var data := Read(fs, path, native);
    d := FlatDem(t, DeduceFilename(path), if data.Some? then data.value else []);
  }

  /** The one-degree bounds of a tile with south-west corner `c`. */
  function FlatBounds(c: Coordinate): (b: Bounds)
    ensures b.nw.latitude == b.ne.latitude == c.latitude + 1.0
    ensures b.ne.longitude == b.se.longitude == c.longitude + 1.0
    ensures b.sw == c && b.nw.longitude == c.longitude && b.se.latitude == c.latitude
  {
    Bounds(Coordinate(c.latitude + 1.0, c.longitude), Coordinate(c.latitude + 1.0, c.longitude + 1.0),
           Coordinate(c.latitude, c.longitude), Coordinate(c.latitude, c.longitude + 1.0))
  }

  /** For an integral corner these are the unit bounds of that corner, so
      a point is inside exactly the tile named after its floored
      coordinates. */
  lemma {:induction false} FlatBoundsAreUnitBounds(lat: int, lon: int, latitude: real, longitude: real)
    ensures FlatBounds(Coordinate(lat as real, lon as real)) == UnitBounds(lat, lon)
    ensures Within(FlatBounds(Coordinate(lat as real, lon as real)), latitude, longitude)
        <==> lat == Floor(latitude) && lon == Floor(longitude)
  {
    UnitBoundsPartition(lat, lon, latitude, longitude);
  }

  /** The exception `index` throws for a point outside the tile. */
  datatype FlatError = OutOfBounds(latitude: real, longitude: real)

  /** `width - 1` in `unsigned int` arithmetic. */
  function WidthPred(w: UInt32): UInt32 {
    if w == 0 then UIntModulus - 1 else w - 1
  }

  function Abs(x: real): real {
    if x < 0.0 then -x else x
  }

  /** `index`: outside the bounds it throws; inside, positions are
      counted in steps of `1 / (width - 1)` degrees from the absolute
      latitude of the northern edge and the absolute longitude of the
      western edge. Reading an uninitialised corner is `Undefined`. */
  function FlatIndex(d: FlatDem, latitude: real, longitude: real): (r: Lookup<Result<Index, FlatError>>)
    ensures r.Defined? <==> d.corner.Defined?
    ensures d.corner.Defined? && !Within(FlatBounds(d.corner.value), latitude, longitude) ==>
      r == Defined(Err(OutOfBounds(latitude, longitude)))
    ensures d.corner.Defined? && Within(FlatBounds(d.corner.value), latitude, longitude) ==> r.value.Ok?
  {
    match d.corner
    case Undefined => Undefined
    case Defined(c) =>
      var b := FlatBounds(c);
      if !Within(b, latitude, longitude) then Defined(Err(OutOfBounds(latitude, longitude)))
      else
        var w1 := WidthPred(d.meta.width) as real;
        Defined(Ok(Index((Abs(b.nw.latitude) - latitude) * w1, (longitude - Abs(b.sw.longitude)) * w1)))
  }

  /** For a tile with a non-negative corner the position of a point
      inside it lies in the square `[0, width - 1]`, measured south from
      the northern edge and east from the western edge. */
  lemma {:induction false} FlatIndexRange(d: FlatDem, latitude: real, longitude: real)
    requires d.corner.Defined? && d.corner.value.latitude >= 0.0 && d.corner.value.longitude >= 0.0
    requires d.meta.width > 0 && Within(FlatBounds(d.corner.value), latitude, longitude)
    ensures var rc := FlatIndex(d, latitude, longitude).value.value;
      0.0 <= rc.row <= (d.meta.width - 1) as real && 0.0 <= rc.column <= (d.meta.width - 1) as real
      && rc.row == (d.corner.value.latitude + 1.0 - latitude) * (d.meta.width - 1) as real
      && rc.column == (longitude - d.corner.value.longitude) * (d.meta.width - 1) as real
  {
    var c := d.corner.value;
    var w1 := (d.meta.width - 1) as real;
    assert WidthPred(d.meta.width) as real == w1;
    assert Abs(FlatBounds(c).nw.latitude) == c.latitude + 1.0;
    assert Abs(FlatBounds(c).sw.longitude) == c.longitude;
    var rc := FlatIndex(d, latitude, longitude).value.value;
    var x, y := c.latitude + 1.0 - latitude, longitude - c.longitude;
    assert rc.row == x * w1 && rc.column == y * w1;
    assert 0.0 <= x <= 1.0 && 0.0 <= y <= 1.0;
    FractionOf(x, w1);
    FractionOf(y, w1);
    calc {
      rc.row;
    ==
      x * w1;
    <=
      w1;
    }
  }

  /** A fraction of a non-negative quantity lies between zero and it. */
  lemma FractionOf(x: real, c: real)
    requires 0.0 <= x <= 1.0 && c >= 0.0
    ensures 0.0 <= x * c <= c
  {
    MulNonnegative(x, c);
    MulNonnegative(1.0 - x, c);
    assert c - x * c == (1.0 - x) * c;
  }

  /** `data[i]` of the flat vector, where an index past the end is
      undefined behaviour. */
  function FlatSample(data: seq<Int16>, i: int): (v: Lookup<Int16>)
    ensures v.Defined? <==> 0 <= i < |data|
    ensures v.Defined? ==> v.value == data[i]
  {
    if 0 <= i < |data| then Defined(data[i]) else Undefined
  }

  /** The sample at a row-major index computed in `size_t`, which wraps
      modulo 2^64. */
  function SizeSample(data: seq<Int16>, i: nat): Lookup<Int16> {
    FlatSample(data, i % SizeModulus)
  }

  /** An index that fits `size_t` and the grid reads the sample there. */
  lemma SizeSampleIn(data: seq<Int16>, i: nat)
    requires i < |data| && i < SizeModulus
    ensures SizeSample(data, i) == Defined(data[i])
  {
  }

  /** The conversion to `size_t` (reduction modulo 2^64) of a value at
      most one turn outside its range, as `size_t` sums, differences and
      conversions from `int` produce. */
  function SizeT(n: int): nat
    requires 0 <= n + SizeModulus && n < 2 * SizeModulus
  {
    if n < 0 then n + SizeModulus else if n >= SizeModulus then n - SizeModulus else n
  }

  lemma SizeTWraps(n: int)
    requires 0 <= n + SizeModulus && n < 2 * SizeModulus
    ensures SizeT(n) == n % SizeModulus && SizeT(n) < SizeModulus
  {
  }

  /** `altitude`: the sample at the rounded position, the row-major index
      computed in `size_t`. */
  function FlatAltitude(d: FlatDem, latitude: real, longitude: real): Lookup<Result<Int16, FlatError>> {
    match FlatIndex(d, latitude, longitude)
    case Undefined => Undefined
    case Defined(Err(e)) => Defined(Err(e))
    case Defined(Ok(rc)) =>
      var r := Round(rc.row);
      var c := Round(rc.column);
      if r < 0 || c < 0 || r >= SizeModulus || c >= SizeModulus then Undefined
      else
        match SizeSample(d.data, Offset(r, d.meta.width, c))
        case Undefined => Undefined
        case Defined(v) => Defined(Ok(v))
  }

  lemma MulLe(a: nat, b: nat, c: nat, e: nat)
    requires a <= c && b <= e
    ensures a * b <= c * e
  {
    assert a * b <= c * b;
    assert c * b <= c * e;
  }

  /** A rounded position in `[0, n]` for an integer `n` is at most `n`. */
  lemma RoundAtMost(x: real, n: nat)
    requires 0.0 <= x <= n as real
    ensures 0 <= Round(x) <= n
  {
  }

  /** Inside a tile with a non-negative corner and `width * width`
      samples, the nearest query reads the sample at the rounded row and
      column of the flat grid, an index below `width * width`. */
  lemma {:induction false} FlatAltitudeInRange(d: FlatDem, latitude: real, longitude: real)
    requires d.corner.Defined? && d.corner.value.latitude >= 0.0 && d.corner.value.longitude >= 0.0
    requires d.meta.width > 0 && |d.data| == d.meta.width * d.meta.width
    requires Within(FlatBounds(d.corner.value), latitude, longitude)
    ensures var rc := FlatIndex(d, latitude, longitude).value.value;
      var i := Round(rc.row) * d.meta.width + Round(rc.column);
      0 <= Round(rc.row) < d.meta.width && 0 <= Round(rc.column) < d.meta.width
      && 0 <= i < d.meta.width * d.meta.width
      && FlatAltitude(d, latitude, longitude) == Defined(Ok(d.data[i]))
  {
    var w := d.meta.width;
    FlatIndexRange(d, latitude, longitude);
    var rc := FlatIndex(d, latitude, longitude).value.value;
    var r, c := Round(rc.row), Round(rc.column);
    RoundAtMost(rc.row, w - 1);
    RoundAtMost(rc.column, w - 1);
    CellInGrid(w, |d.data|, r, c);
    SizeSampleIn(d.data, Offset(r, w, c));
  }

  /** A row and a column below the width index a sample of the grid. */
  lemma CellInGrid(w: UInt32, n: nat, r: nat, c: nat)
    requires n == w * w && r < w && c < w
    ensures Offset(r, w, c) == r * w + c && r * w + c < n && n <= SizeModulus
  {
    RowEndWithin(r, w, w);
    MulLe(w, w, UIntModulus, UIntModulus);
  }

  /** West of the prime meridian the absolute value of the western edge
      makes every column position of a point in the tile negative, and
      the nearest query converts it to `size_t`: undefined for every point
      of the tile. */
  lemma {:induction false} WesternTileAltitudeUndefined(d: FlatDem, latitude: real, longitude: real)
    requires d.corner.Defined? && d.corner.value.longitude <= -1.0 && d.meta.width >= 2
    requires Within(FlatBounds(d.corner.value), latitude, longitude)
    ensures FlatIndex(d, latitude, longitude).value.value.column < 0.0
    ensures FlatAltitude(d, latitude, longitude) == Undefined
  {
    var c := d.corner.value;
    var w1 := (d.meta.width - 1) as real;
    var x := longitude + c.longitude;
    assert WidthPred(d.meta.width) as real == w1;
    assert Abs(FlatBounds(c).sw.longitude) == -c.longitude;
    assert FlatIndex(d, latitude, longitude).value.value.column == x * w1;
    assert x < -1.0;
    assert x * w1 <= x by {
      MulMono(1.0, w1, -x);
    }
  }

  /** The place of row `row`, column `column` in a grid stored row by row
      with `width` samples per row. */
  function Offset(row: nat, width: nat, column: nat): nat {
    row * width + column
  }

  /** The bilinear blend of the flat grid at a position: rows `r` and
      `r - 1` (row 0 standing in for the row north of the first),
      columns `c` and `c + 1`, all indices computed in `size_t`. */
  function FlatBlendAt(d: FlatDem, rc: Index): Lookup<real> {
    var r := Trunc(rc.row);
    var c := Trunc(rc.column);
    if r < 0 || c < 0 || r >= SizeModulus || c >= SizeModulus then Undefined
    else
      var w := d.meta.width;
      var w1 := WidthPred(w) as real;
      var dl := Min(rc.row, w1) - r as real;
      var dc := Min(rc.column, w1) - c as real;
      var north := if r == 0 then 0 else r - 1;
      FlatBlendCells(d.data, dl, dc, Offset(r, w, c), Offset(north, w, c))
  }

  /** The blend of the samples at `i`, `i + 1` (one row) and `j`, `j + 1`
      (the row to the north), read in `size_t`. */
  function FlatBlendCells(data: seq<Int16>, dl: real, dc: real, i: nat, j: nat): Lookup<real> {
    Blend(dl, dc, SizeSample(data, i), SizeSample(data, i + 1), SizeSample(data, j), SizeSample(data, j + 1))
  }

  /** `interpolated_altitude` */
  function FlatInterpolated(d: FlatDem, latitude: real, longitude: real): Lookup<Result<real, FlatError>> {
    match FlatIndex(d, latitude, longitude)
    case Undefined => Undefined
    case Defined(Err(e)) => Defined(Err(e))
    case Defined(Ok(rc)) =>
      match FlatBlendAt(d, rc)
      case Undefined => Undefined
      case Defined(v) => Defined(Ok(v))
  }

  /** Inside the grid the blend reads the four samples around the
      truncated position, weighted by the position's fractional parts. */
  lemma FlatBlendInside(d: FlatDem, rc: Index, r: nat, c: nat, north: nat, i: nat, j: nat)
    requires Trunc(rc.row) == r && Trunc(rc.column) == c
    requires r < SizeModulus && c < SizeModulus
    requires rc.row <= WidthPred(d.meta.width) as real && rc.column <= WidthPred(d.meta.width) as real
    requires north == (if r == 0 then 0 else r - 1)
    requires i == Offset(r, d.meta.width, c) && j == Offset(north, d.meta.width, c)
    requires i + 1 < |d.data| && j + 1 < |d.data| && |d.data| <= SizeModulus
    ensures FlatBlendAt(d, rc)
         == Blend(rc.row - r as real, rc.column - c as real,
                  Defined(d.data[i]), Defined(d.data[i + 1]), Defined(d.data[j]), Defined(d.data[j + 1]))
  {
    var w1 := WidthPred(d.meta.width) as real;
    assert Min(rc.row, w1) == rc.row && Min(rc.column, w1) == rc.column;
    assert FlatBlendAt(d, rc) == FlatBlendCells(d.data, rc.row - r as real, rc.column - c as real, i, j);
    CellsInside(d.data, rc.row - r as real, rc.column - c as real, i, j);
  }

  /** The four reads of the blend, all inside the grid. */
  lemma CellsInside(data: seq<Int16>, dl: real, dc: real, i: nat, j: nat)
    requires i + 1 < |data| && j + 1 < |data| && |data| <= SizeModulus
    ensures FlatBlendCells(data, dl, dc, i, j)
         == Blend(dl, dc, Defined(data[i]), Defined(data[i + 1]), Defined(data[j]), Defined(data[j + 1]))
  {
    SizeSampleIn(data, i);
    SizeSampleIn(data, i + 1);
    SizeSampleIn(data, j);
    SizeSampleIn(data, j + 1);
  }

  /** No fraction of the way along either axis: the north-west sample. */
  lemma BlendAtCorner(a: Int16, e: Int16, b: Int16, f: Int16)
    ensures Blend(0.0, 0.0, Defined(a), Defined(e), Defined(b), Defined(f)) == Defined(a as real)
  {
  }

  /** Half of each of two samples. */
  lemma BlendHalfway(a: Int16, b: Int16, e: Int16, f: Int16)
    ensures Blend(0.5, 0.0, Defined(a), Defined(e), Defined(b), Defined(f))
         == Defined((a as real + b as real) / 2.0)
  {
  }

  /** The four cells the blend reads, for rows `r` and `north` and a column
      with an eastern neighbour, lie in a `w * w` grid, itself within
      `size_t`. */
  lemma CellsInGrid(w: UInt32, n: nat, r: nat, north: nat, c: nat)
    requires n == w * w && r < w && north < w && c + 1 < w
    ensures r * w + c + 1 < n && north * w + c + 1 < n && n <= SizeModulus
  {
    RowEndWithin(r, w, w);
    RowEndWithin(north, w, w);
    MulLe(w, w, UIntModulus, UIntModulus);
  }

  /** At an integral position whose eastern neighbour is in the grid, the
      blend is the sample itself. */
  lemma {:induction false} FlatBlendAtGridPosition(d: FlatDem, r: nat, c: nat)
    requires |d.data| == d.meta.width * d.meta.width
    requires r < d.meta.width && c + 1 < d.meta.width
    ensures r * d.meta.width + c < |d.data|
    ensures FlatBlendAt(d, Index(r as real, c as real)) == Defined(d.data[r * d.meta.width + c] as real)
  {
    var w := d.meta.width;
    var north := if r == 0 then 0 else r - 1;
    var i, j := r * w + c, north * w + c;
    CellsInGrid(w, |d.data|, r, north, c);
    assert Trunc(r as real) == r && Trunc(c as real) == c;
    assert r as real <= WidthPred(w) as real && c as real <= WidthPred(w) as real;
    FlatBlendInside(d, Index(r as real, c as real), r, c, north, i, j);
    BlendAtCorner(d.data[i], d.data[i + 1], d.data[j], d.data[j + 1]);
  }

  /** Half-way between rows `r` and `r + 1` the blend mixes row `r` with
      row `r - 1`, the row to the north, rather than with row `r + 1`. */
  lemma {:induction false} FlatBlendTakesNorthernRow(d: FlatDem, r: nat, c: nat)
    requires |d.data| == d.meta.width * d.meta.width
    requires 1 <= r && r + 1 < d.meta.width && c + 1 < d.meta.width
    ensures r * d.meta.width + c < |d.data| && (r - 1) * d.meta.width + c < |d.data|
    ensures FlatBlendAt(d, Index(r as real + 0.5, c as real))
         == Defined((d.data[r * d.meta.width + c] as real + d.data[(r - 1) * d.meta.width + c] as real) / 2.0)
  {
    var w := d.meta.width;
    var i, j := r * w + c, (r - 1) * w + c;
    CellsInGrid(w, |d.data|, r, r - 1, c);
    assert Trunc(r as real + 0.5) == r && Trunc(c as real) == c;
    assert r as real + 0.5 <= WidthPred(w) as real && c as real <= WidthPred(w) as real;
    FlatBlendInside(d, Index(r as real + 0.5, c as real), r, c, r - 1, i, j);
    BlendHalfway(d.data[i], d.data[j], d.data[i + 1], d.data[j + 1]);
  }

  function MinNat(a: nat, b: nat): nat {
    if b < a then b else a
  }

  /** The start and end of one axis of `patch` for position `x`, every
      step computed in `size_t` as the source does: the range of `radius`
      around `x` cut at the tile's edges, replaced by `[0, 2 * radius + 1)`
      when the cut range is short, and by the last `2 * radius + 1` lines
      when the range reaches past the far edge. */
  function AxisRange(x: nat, radius: Int32, width: UInt32): (nat, nat)
    requires x < SizeModulus
  {
    var rad := SizeT(radius);
    var patchWidth := SizeT(radius * 2);
    var start0 := if x >= rad then x - rad else 0;
    var end0 := MinNat(SizeT(x + rad + 1), width);
    var start1 := if SizeT(start0 + end0) < SizeT(patchWidth + 1) then 0 else start0;
    var end1 := if SizeT(start0 + end0) < SizeT(patchWidth + 1) then MinNat(width, SizeT(patchWidth + 1)) else end0;
    if SizeT(x + rad) >= width then (SizeT(width - patchWidth - 1), width)
    else (start1, end1)
  }

  /** When the tile is at least `2 * radius + 1` wide, each axis of the
      window is exactly `2 * radius + 1` lines inside the tile that
      include `x`: the window is moved inward at the edges, not cut. */
  lemma AxisRangeFull(x: nat, radius: Int32, width: UInt32)
    requires 0 <= radius && 2 * radius + 1 <= width && x < width
    ensures var range := AxisRange(x, radius, width);
      range.1 - range.0 == 2 * radius + 1 && range.0 <= x < range.1 <= width
  {
  }

  /** When the tile is narrower than `2 * radius + 1` and the range
      reaches past its far edge, `width - patch_width - 1` wraps around in
      `size_t` and the axis starts after it ends: the window is empty. */
  lemma AxisRangeUnderflow(x: nat, radius: Int32, width: UInt32)
    requires 0 <= radius && width < 2 * radius + 1 && width <= x + radius && x < UIntModulus
    ensures AxisRange(x, radius, width) == (SizeModulus + width - 2 * radius - 1, width)
    ensures AxisRange(x, radius, width).0 > AxisRange(x, radius, width).1
  {
  }

  /** `data[i * width + j]` as the window loop reads it: `i` and `j` are
      `int` counters, so the index is computed in `unsigned int`. */
  function WindowSample(data: seq<Int16>, width: nat, i: int, j: int): Lookup<Int16> {
    FlatSample(data, (i * width + j) % UIntModulus)
  }

  function Append(s: Lookup<seq<Int16>>, v: Lookup<Int16>): Lookup<seq<Int16>> {
    if s.Defined? && v.Defined? then Defined(s.value + [v.value]) else Undefined
  }

  function Concat(s: Lookup<seq<Int16>>, t: Lookup<seq<Int16>>): Lookup<seq<Int16>> {
    if s.Defined? && t.Defined? then Defined(s.value + t.value) else Undefined
  }

  /** The samples of row `i` in columns `cs` up to `j`. */
  function RowFrom(data: seq<Int16>, width: nat, i: int, cs: int, j: int): Lookup<seq<Int16>>
    decreases j - cs
  {
    if j <= cs then Defined([]) else Append(RowFrom(data, width, i, cs, j - 1), WindowSample(data, width, i, j - 1))
  }

  /** The samples of rows `rs` up to `i`, each in columns `cs` up to `ce`,
      row after row. */
  function Window(data: seq<Int16>, width: nat, rs: int, i: int, cs: int, ce: int): Lookup<seq<Int16>>
    decreases i - rs
  {
    if i <= rs then Defined([]) else Concat(Window(data, width, rs, i - 1, cs, ce), RowFrom(data, width, i - 1, cs, ce))
  }

  lemma {:induction false} RowUndefinedPersists(data: seq<Int16>, width: nat, i: int, cs: int, j: int, e: int)
    requires cs <= j <= e && RowFrom(data, width, i, cs, j) == Undefined
    ensures RowFrom(data, width, i, cs, e) == Undefined
    decreases e - j
  {
    if j < e {
      RowUndefinedPersists(data, width, i, cs, j + 1, e);
    }
  }

  lemma {:induction false} WindowUndefinedPersists(data: seq<Int16>, width: nat, rs: int, i: int, e: int, cs: int, ce: int)
    requires rs <= i <= e && Window(data, width, rs, i, cs, ce) == Undefined
    ensures Window(data, width, rs, e, cs, ce) == Undefined
    decreases e - i
  {
    if i < e {
      WindowUndefinedPersists(data, width, rs, i + 1, e, cs, ce);
    }
  }

  /** A row whose samples all lie in the grid is defined and holds them
      in column order. */
  lemma {:induction false} RowFromDefined(data: seq<Int16>, width: nat, i: nat, cs: nat, j: nat)
    requires cs <= j <= width && i * width + width <= |data| && i * width + width <= UIntModulus
    ensures RowFrom(data, width, i, cs, j).Defined?
    ensures RowFrom(data, width, i, cs, j).value == data[i * width + cs..i * width + j]
    decreases j - cs
  {
    if j > cs {
      RowFromDefined(data, width, i, cs, j - 1);
      var base := i * width;
      InRowSample(data, width, i, j - 1);
      SliceSnoc(data, base + cs, base + j - 1);
    }
  }

  /** A sample of a row that lies in the grid is read where it is. */
  lemma InRowSample(data: seq<Int16>, width: nat, i: nat, j: nat)
    requires j < width && i * width + width <= |data| && i * width + width <= UIntModulus
    ensures WindowSample(data, width, i, j) == Defined(data[i * width + j])
  {
    var k := i * width + j;
    assert k < UIntModulus;
    assert k % UIntModulus == k;
  }

  lemma SliceSnoc<T>(s: seq<T>, a: nat, b: nat)
    requires a <= b < |s|
    ensures s[a..b + 1] == s[a..b] + [s[b]]
  {
  }

  /** A window whose samples all lie in the grid is defined and holds
      `ce - cs` samples from each of its rows. */
  lemma {:induction false} WindowDefined(data: seq<Int16>, width: nat, rs: nat, i: nat, cs: nat, ce: nat)
    requires rs <= i && cs <= ce <= width && i * width <= |data| && i * width <= UIntModulus
    ensures Window(data, width, rs, i, cs, ce).Defined?
    ensures |Window(data, width, rs, i, cs, ce).value| == (i - rs) * (ce - cs)
    decreases i - rs
  {
    if i > rs {
      var k := i - 1;
      RowBelow(k, width);
      WindowDefined(data, width, rs, k, cs, ce);
      RowFromDefined(data, width, k, cs, ce);
      ConcatLength(Window(data, width, rs, k, cs, ce), RowFrom(data, width, k, cs, ce), k - rs, ce - cs);
    }
  }

  lemma RowBelow(k: nat, width: nat)
    ensures k * width <= k * width + width == (k + 1) * width
  {
    MulSucc(k, width);
  }

  /** Joining `m` rows of `n` samples with one more row gives `m + 1` rows. */
  lemma ConcatLength(s: Lookup<seq<Int16>>, t: Lookup<seq<Int16>>, m: nat, n: nat)
    requires s.Defined? && t.Defined? && |s.value| == m * n && |t.value| == n
    ensures Concat(s, t).Defined? && |Concat(s, t).value| == (m + 1) * n
  {
    MulSucc(m, n);
  }

  /** The sample in row `a` and column `b` of a window over the columns
      `cs` up to `ce`, stored row after row; undefined past its end. */
  function WindowCell(p: seq<Int16>, cs: nat, ce: nat, a: nat, b: nat): Lookup<Int16> {
    var n := if cs <= ce then ce - cs else 0;
    if a * n + b < |p| then Defined(p[a * n + b]) else Undefined
  }

  /** A window whose samples all lie in the grid holds them in row-major
      order: its cell (`a`, `b`) is the sample of row `rs + a` and column
      `cs + b` of the tile. */
  lemma {:induction false} WindowContents(data: seq<Int16>, width: nat, rs: nat, i: nat, cs: nat, ce: nat)
    requires rs <= i && cs <= ce <= width && i * width <= |data| && i * width <= UIntModulus
    ensures Window(data, width, rs, i, cs, ce).Defined?
    ensures forall a: nat, b: nat :: a < i - rs && b < ce - cs ==>
      var v := WindowCell(Window(data, width, rs, i, cs, ce).value, cs, ce, a, b);
      v.Defined? && v == FlatSample(data, (rs + a) * width + cs + b)
    decreases i - rs
  {
    WindowDefined(data, width, rs, i, cs, ce);
    if i > rs {
      var k := i - 1;
      RowBelow(k, width);
      WindowContents(data, width, rs, k, cs, ce);
      WindowDefined(data, width, rs, k, cs, ce);
      RowFromDefined(data, width, k, cs, ce);
      var prev := Window(data, width, rs, k, cs, ce).value;
      var row := RowFrom(data, width, k, cs, ce).value;
      assert Window(data, width, rs, i, cs, ce).value == prev + row;
      forall a: nat, b: nat | a < i - rs && b < ce - cs
        ensures var v := WindowCell(prev + row, cs, ce, a, b);
          v.Defined? && v == FlatSample(data, (rs + a) * width + cs + b)
      {
        CellBefore(rs + a, cs + b, i, width);
        CellStep(data, width, rs, k, cs, ce, prev, row, a, b);
      }
    }
  }

  /** One step of `WindowContents`: a cell of the rows before row `k`
      keeps its sample, and a cell of row `k` is read from that row. */
  lemma CellStep(data: seq<Int16>, width: nat, rs: nat, k: nat, cs: nat, ce: nat,
                 prev: seq<Int16>, row: seq<Int16>, a: nat, b: nat)
    requires rs <= k && cs <= ce && |prev| == (k - rs) * (ce - cs)
    requires k * width + ce <= |data| && row == data[k * width + cs..k * width + ce]
    requires a <= k - rs && b < ce - cs && (rs + a) * width + cs + b < |data|
    requires a < k - rs ==> var v := WindowCell(prev, cs, ce, a, b); v.Defined? && v == FlatSample(data, (rs + a) * width + cs + b)
    ensures var v := WindowCell(prev + row, cs, ce, a, b); v.Defined? && v == FlatSample(data, (rs + a) * width + cs + b)
  {
    CellOfConcat(prev, row, cs, ce, k - rs, a, b);
    if a == k - rs {
      assert rs + a == k;
      RowCell(data, k * width, cs, ce, row, b);
    }
  }

  /** A cell of `m` rows followed by one more row lies in the first `m`
      rows or, in row `m`, in the added one. */
  lemma CellOfConcat(prev: seq<Int16>, row: seq<Int16>, cs: nat, ce: nat, m: nat, a: nat, b: nat)
    requires cs <= ce && |prev| == m * (ce - cs) && |row| == ce - cs && a <= m && b < ce - cs
    ensures a < m ==> WindowCell(prev + row, cs, ce, a, b) == WindowCell(prev, cs, ce, a, b)
    ensures a == m ==> WindowCell(prev + row, cs, ce, a, b) == Defined(row[b])
  {
    if a < m {
      CellBefore(a, b, m, ce - cs);
    }
  }

  /** A cell of the first `m` rows of a grid `n` wide lies before the
      end of those rows. */
  lemma CellBefore(a: nat, b: nat, m: nat, n: nat)
    requires a < m && b < n
    ensures a * n + b < m * n
  {
    MulLe(a + 1, n, m, n);
    MulSucc(a, n);
  }

  /** The samples of a row slice, read one by one. */
  lemma RowCell(data: seq<Int16>, base: nat, cs: nat, ce: nat, row: seq<Int16>, b: nat)
    requires cs <= ce && base + ce <= |data| && row == data[base + cs..base + ce] && b < ce - cs
    ensures row[b] == data[base + cs + b]
  {
  }

  /** `patch`: the samples of the square window of `radius` around the
      point, row by row. */
  function PatchOf(d: FlatDem, latitude: real, longitude: real, radius: Int32): Lookup<Result<seq<Int16>, FlatError>> {
    match FlatIndex(d, latitude, longitude)
    case Undefined => Undefined
    case Defined(Err(e)) => Defined(Err(e))
    case Defined(Ok(rc)) =>
      var w1 := WidthPred(d.meta.width) as real;
      var r := Trunc(Min(rc.row, w1));
      var c := Trunc(Min(rc.column, w1));
      if r < 0 || c < 0 || r >= SizeModulus || c >= SizeModulus || !(-0x8000_0000 <= radius * 2 < 0x8000_0000) then
        Undefined
      else
        var rows := AxisRange(r, radius, d.meta.width);
        var columns := AxisRange(c, radius, d.meta.width);
        match Window(d.data, d.meta.width, rows.0, rows.1, columns.0, columns.1)
        case Undefined => Undefined
        case Defined(s) => Defined(Ok(s))
  }

  /** `patch`, step by step: the window's bounds reassigned as the source
      does, then its samples pushed in two nested loops. */
  method Patch(d: FlatDem, latitude: real, longitude: real, radius: Int32)
    returns (p: Lookup<Result<seq<Int16>, FlatError>>)
    ensures p == PatchOf(d, latitude, longitude, radius)
  {
    var index := FlatIndex(d, latitude, longitude);
    if index.Undefined? {
      return Undefined;
    }
    if index.value.Err? {
      return Defined(Err(index.value.error));
    }
    var rc := index.value.value;
    var w := d.meta.width;
    var w1 := WidthPred(w) as real;
    var rr := Trunc(Min(rc.row, w1));
    var cc := Trunc(Min(rc.column, w1));
    if rr < 0 || cc < 0 || rr >= SizeModulus || cc >= SizeModulus || !(-0x8000_0000 <= radius * 2 < 0x8000_0000) {
      return Undefined;
    }
    var rows := AxisRange(rr, radius, w);
    var columns := AxisRange(cc, radius, w);
    var window := CollectWindow(d.data, w, rows.0, rows.1, columns.0, columns.1);
    if window.Undefined? {
      return Undefined;
    }
    return Defined(Ok(window.value));
  }

  /** The two nested loops of `patch`: rows `rs` up to `re`, in each the
      columns `cs` up to `ce`, every sample pushed in turn; an index past
      the end of the grid stops with undefined behaviour. */
  method CollectWindow(data: seq<Int16>, w: nat, rs: nat, re: nat, cs: nat, ce: nat)
    returns (p: Lookup<seq<Int16>>)
    ensures p == Window(data, w, rs, re, cs, ce)
  {
    var out: seq<Int16> := [];
    var i := rs;
    while i < re
      invariant rs <= i && (i <= re || i == rs)
      invariant Window(data, w, rs, i, cs, ce) == Defined(out)
      decreases re - i
    {
      ghost var before := out;
      ghost var row: seq<Int16> := [];
      var j := cs;
      while j < ce
        invariant cs <= j && (j <= ce || j == cs)
        invariant RowFrom(data, w, i, cs, j) == Defined(row)
        invariant out == before + row
        decreases ce - j
      {
        var k := (i * w + j) % UIntModulus;
        if k >= |data| {
          RowUndefinedPersists(data, w, i, cs, j + 1, ce);
          WindowUndefinedPersists(data, w, rs, i + 1, re, cs, ce);
          return Undefined;
        }
        out := out + [data[k]];
        row := row + [data[k]];
        j := j + 1;
      }
      if ce < cs {
        assert RowFrom(data, w, i, cs, ce) == Defined([]);
      }
      assert RowFrom(data, w, i, cs, ce) == Defined(row);
      i := i + 1;
    }
    if re < rs {
      assert Window(data, w, rs, re, cs, ce) == Defined([]);
    }
    return Defined(out);
  }

  /** Inside a tile with a non-negative corner, `width * width` samples
      and a width of at least `2 * radius + 1` (and below 2^16, so that
      indices fit `unsigned int`), `patch` returns exactly
      `(2 * radius + 1)^2` samples, from a window of rows and columns of
      the tile that contains the point's cell, row by row and in each row
      column by column. */
  lemma {:induction false} PatchOfFullTile(d: FlatDem, latitude: real, longitude: real, radius: Int32)
    requires d.corner.Defined? && d.corner.value.latitude >= 0.0 && d.corner.value.longitude >= 0.0
    requires |d.data| == d.meta.width * d.meta.width && d.meta.width < 0x1_0000
    requires 0 <= radius && 2 * radius + 1 <= d.meta.width
    requires Within(FlatBounds(d.corner.value), latitude, longitude)
    ensures var rc := FlatIndex(d, latitude, longitude).value.value;
      var w1 := (d.meta.width - 1) as real;
      var r, c := Trunc(Min(rc.row, w1)), Trunc(Min(rc.column, w1));
      0 <= r < d.meta.width && 0 <= c < d.meta.width
      && var rows, columns := AxisRange(r, radius, d.meta.width), AxisRange(c, radius, d.meta.width);
      rows.0 <= r < rows.1 <= d.meta.width && columns.0 <= c < columns.1 <= d.meta.width
      && PatchOf(d, latitude, longitude, radius).Defined?
      && PatchOf(d, latitude, longitude, radius).value.Ok?
      && |PatchOf(d, latitude, longitude, radius).value.value| == (2 * radius + 1) * (2 * radius + 1)
      && forall a: nat, b: nat :: a < 2 * radius + 1 && b < 2 * radius + 1 ==>
        var v := WindowCell(PatchOf(d, latitude, longitude, radius).value.value, columns.0, columns.1, a, b);
        v.Defined? && v == FlatSample(d.data, (rows.0 + a) * d.meta.width + columns.0 + b)
  {
    var w := d.meta.width;
    FlatIndexRange(d, latitude, longitude);
    var rc := FlatIndex(d, latitude, longitude).value.value;
    var w1 := (w - 1) as real;
    var r, c := Trunc(Min(rc.row, w1)), Trunc(Min(rc.column, w1));
    assert 0 <= r < w && 0 <= c < w;
    AxisRangeFull(r, radius, w);
    AxisRangeFull(c, radius, w);
    var rows, columns := AxisRange(r, radius, w), AxisRange(c, radius, w);
    MulLe(rows.1, w, w, w);
    MulLe(w, w, 0x1_0000, 0x1_0000);
    WindowDefined(d.data, w, rows.0, rows.1, columns.0, columns.1);
    WindowContents(d.data, w, rows.0, rows.1, columns.0, columns.1);
  }
}
