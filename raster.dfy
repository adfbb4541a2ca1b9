/** A grid tile: its metadata (`DEM::Type`), the bounds derived from it,
    the row-wise samples decoded from a binary file, and the nearest and
    bilinear altitude queries. This is the logic of include/DEM/DEM.hpp,
    which include/DEM.hpp and src/DEM.cpp repeat with the differences
    modelled in their own modules. */
module Raster {
  import opened Wrappers
  import opened Samples
  import opened Geo

  /** `DEM::Type`: grid dimensions, south-west corner, cell size in
      degrees and the no-data sample. */
  datatype DemType = DemType(nrows: nat, ncols: nat, yllcorner: real, xllcorner: real, cellsize: real, nodata: Int16)

  /** The default-constructed `Type`: everything zero. */
  const DefaultType := DemType(0, 0, 0.0, 0.0, 0.0, 0)

  datatype TypeError = InvalidDimensions | InvalidCorner(latitude: real, longitude: real)

  /** The validating `Type` constructor: it throws for an empty grid, and
      then for a corner outside the coordinate range. */
  function MakeType(nrows: nat, ncols: nat, yllcorner: real, xllcorner: real, cellsize: real, nodata: Int16)
    : (r: Result<DemType, TypeError>)
    ensures r.Ok? <==> nrows > 0 && ncols > 0 && InRange(yllcorner, xllcorner)
    ensures r.Ok? ==> r.value == DemType(nrows, ncols, yllcorner, xllcorner, cellsize, nodata)
    ensures nrows == 0 || ncols == 0 ==> r == Err(InvalidDimensions)
  {
    if nrows == 0 || ncols == 0 then Err(InvalidDimensions)
    else if yllcorner > 90.0 || yllcorner < -90.0 || xllcorner > 180.0 || xllcorner < -180.0 then
      Err(InvalidCorner(yllcorner, xllcorner))
    else Ok(DemType(nrows, ncols, yllcorner, xllcorner, cellsize, nodata))
  }

  /** The bounds the tile constructor derives from its metadata: the
      south-west corner is the lower-left corner, and the grid extends
      `cellsize * nrows` north and `cellsize * ncols` east of it. */
  function DeriveBounds(t: DemType): Bounds {
    var north := t.yllcorner + t.cellsize * t.nrows as real;
    var east := t.xllcorner + t.cellsize * t.ncols as real;
    Bounds(Coordinate(north, t.xllcorner), Coordinate(north, east),
           Coordinate(t.yllcorner, t.xllcorner), Coordinate(t.yllcorner, east))
  }

  /** For a positive cell size the derived box is a proper rectangle: the
      northern corners share a latitude above the southern ones, the
      western corners a longitude west of the eastern ones, and its sides
      span the grid. */
  lemma BoundsShape(t: DemType)
    requires t.cellsize > 0.0 && t.nrows > 0 && t.ncols > 0
    ensures var b := DeriveBounds(t);
      b.nw.latitude == b.ne.latitude && b.sw.latitude == b.se.latitude && b.sw.latitude < b.ne.latitude
      && b.nw.longitude == b.sw.longitude && b.ne.longitude == b.se.longitude && b.sw.longitude < b.ne.longitude
      && b.ne.latitude - b.sw.latitude == t.cellsize * t.nrows as real
      && b.ne.longitude - b.sw.longitude == t.cellsize * t.ncols as real
  {
  }

  /** Only a tile with rows, columns and a positive cell size contains any
      point. */
  lemma WithinNonDegenerate(t: DemType, latitude: real, longitude: real)
    requires Within(DeriveBounds(t), latitude, longitude)
    ensures t.cellsize > 0.0 && t.nrows > 0 && t.ncols > 0
  {
    assert t.cellsize * t.nrows as real > 0.0;
    assert t.cellsize * t.ncols as real > 0.0;
  }

  /** The bounds as the constructors of include/DEM/DEM.hpp and
      include/DEM.hpp build them: each corner goes through the validating
      `Coordinate` constructor, NW first, then NE, SW and SE, and the
      first corner outside the coordinate range is thrown. */
  function MakeBounds(t: DemType): (r: Result<Bounds, GeoError>)
    ensures var b := DeriveBounds(t);
      r.Ok? <==> InRange(b.ne.latitude, b.ne.longitude) && InRange(b.sw.latitude, b.sw.longitude)
    ensures r.Ok? ==> r.value == DeriveBounds(t)
    ensures var b := DeriveBounds(t);
      !InRange(b.nw.latitude, b.nw.longitude) ==> r == Err(InvalidCoordinates(b.nw.latitude, b.nw.longitude))
  {
    var b := DeriveBounds(t);
    match MakeCoordinate(b.nw.latitude, b.nw.longitude)
    case Err(e) => Err(e)
    case Ok(nw) =>
      match MakeCoordinate(b.ne.latitude, b.ne.longitude)
      case Err(e) => Err(e)
      case Ok(ne) =>
        match MakeCoordinate(b.sw.latitude, b.sw.longitude)
        case Err(e) => Err(e)
        case Ok(sw) =>
          match MakeCoordinate(b.se.latitude, b.se.longitude)
          case Err(e) => Err(e)
          case Ok(se) => Ok(Bounds(nw, ne, sw, se))
  }

  /** A one-degree tile at an integral corner has valid bounds exactly
      when its corner lies at most 89 degrees north and 179 degrees east:
      the tiles `90_*` and `*_180` reach past the coordinate range. */
  lemma UnitTileBounds(t: DemType)
    requires t.cellsize * t.nrows as real == 1.0 && t.cellsize * t.ncols as real == 1.0
    requires t.yllcorner.Floor as real == t.yllcorner && t.xllcorner.Floor as real == t.xllcorner
    ensures MakeBounds(t).Ok?
        <==> -90.0 <= t.yllcorner <= 89.0 && -180.0 <= t.xllcorner <= 179.0
  {
  }

  /** A fractional position in the grid: rows counted south from the
      northern edge, columns east from the western edge. */
  datatype Index = Index(row: real, column: real)

  /** `index`: the grid position of a coordinate inside the bounds, and
      the no-data value in both components for one outside. The source's
      branches for a latitude south of, or a longitude west of, the
      south-west corner sit inside the `within` test that excludes them
      and are never taken (see `HemisphereBranchesDead`). */
  function IndexOf(t: DemType, latitude: real, longitude: real): (rc: Index)
    ensures Within(DeriveBounds(t), latitude, longitude) ==>
      0.0 < rc.row <= t.nrows as real && 0.0 <= rc.column < t.ncols as real
    ensures !Within(DeriveBounds(t), latitude, longitude) ==>
      rc == Index(t.nodata as real, t.nodata as real)
  {
    var b := DeriveBounds(t);
    if Within(b, latitude, longitude) then
      WithinNonDegenerate(t, latitude, longitude);
      var rc := Index((b.ne.latitude - latitude) / t.cellsize, (longitude - b.sw.longitude) / t.cellsize);
      IndexRange(t, b.ne.latitude - latitude, longitude - b.sw.longitude);
      rc
    else
      Index(t.nodata as real, t.nodata as real)
  }

  lemma IndexRange(t: DemType, dLat: real, dLon: real)
    requires t.cellsize > 0.0
    requires 0.0 < dLat <= t.cellsize * t.nrows as real
    requires 0.0 <= dLon < t.cellsize * t.ncols as real
    ensures 0.0 < dLat / t.cellsize <= t.nrows as real
    ensures 0.0 <= dLon / t.cellsize < t.ncols as real
  {
    assert dLat / t.cellsize * t.cellsize == dLat;
    assert dLon / t.cellsize * t.cellsize == dLon;
    if dLat / t.cellsize > t.nrows as real {
      MulStrict(dLat / t.cellsize, t.nrows as real, t.cellsize);
    }
    if dLon / t.cellsize >= t.ncols as real {
      MulMono(t.ncols as real, dLon / t.cellsize, t.cellsize);
    }
  }

  lemma MulStrict(x: real, y: real, c: real)
    requires x > y && c > 0.0
    ensures x * c > y * c
  {
  }

  lemma MulMono(x: real, y: real, c: real)
    requires x <= y && c >= 0.0
    ensures x * c <= y * c && c * x <= c * y
  {
  }

  /** Row `i` of a grid of `m` rows ends within it. */
  lemma MulSucc(a: nat, b: nat)
    ensures (a + 1) * b == a * b + b
  {
  }

  lemma RowEndWithin(i: nat, m: nat, n: nat)
    requires i < m
    ensures i * n + n <= m * n
  {
    var k: nat := m - i - 1;
    assert m * n == i * n + n + k * n;
  }

  /** Inside the bounds, a latitude is never south of the south-west
      corner nor a longitude west of it, so `index` always takes its
      first branches. */
  lemma HemisphereBranchesDead(t: DemType, latitude: real, longitude: real)
    requires Within(DeriveBounds(t), latitude, longitude)
    ensures latitude >= DeriveBounds(t).sw.latitude && longitude >= DeriveBounds(t).sw.longitude
  {
  }

  /** The latitude of grid row `row` and the longitude of grid column
      `column`. */
  function GridPoint(t: DemType, row: real, column: real): Coordinate {
    var b := DeriveBounds(t);
    Coordinate(b.ne.latitude - row * t.cellsize, b.sw.longitude + column * t.cellsize)
  }

  /** `index` inverts the placement of grid positions: every position of
      the half-open range it produces is the index of exactly its own
      point. */
  lemma {:induction false} IndexOfGridPoint(t: DemType, row: real, column: real)
    requires t.cellsize > 0.0
    requires 0.0 < row <= t.nrows as real && 0.0 <= column < t.ncols as real
    ensures Within(DeriveBounds(t), GridPoint(t, row, column).latitude, GridPoint(t, row, column).longitude)
    ensures IndexOf(t, GridPoint(t, row, column).latitude, GridPoint(t, row, column).longitude) == Index(row, column)
  {
    var p := GridPoint(t, row, column);
    MulMono(row, t.nrows as real, t.cellsize);
    MulStrict(t.ncols as real, column, t.cellsize);
    assert row * t.cellsize > 0.0;
    assert Within(DeriveBounds(t), p.latitude, p.longitude);
    assert (row * t.cellsize) / t.cellsize == row;
    assert (column * t.cellsize) / t.cellsize == column;
  }

  /** `std::round`: to the nearest integer, halves away from zero. */
  function Round(x: real): (n: int)
    ensures x - 0.5 <= n as real <= x + 0.5
    ensures x >= 0.0 ==> n >= 0
  {
    if x >= 0.0 then (x + 0.5).Floor else -((0.5 - x).Floor)
  }

  /** Conversion of a floating value to an integer type: the fraction is
      dropped, towards zero. */
  function Trunc(x: real): (n: int)
    ensures x >= 0.0 ==> n as real <= x < n as real + 1.0
    ensures x < 0.0 ==> n as real - 1.0 < x <= n as real
  {
    if x >= 0.0 then x.Floor else -((-x).Floor)
  }

  /** 2^64, the modulus of `size_t` arithmetic. */
  const SizeModulus: nat := 0x1_0000_0000_0000_0000

  /** `n - 1` computed in `size_t`. */
  function SizePred(n: nat): nat
    requires n < SizeModulus
  {
    if n == 0 then SizeModulus - 1 else n - 1
  }

  /** `data[r][c]`, where an index past the end is undefined behaviour. */
  function At(data: seq<seq<Int16>>, r: int, c: int): (v: Lookup<Int16>)
    ensures v.Defined? <==> 0 <= r < |data| && 0 <= c < |data[r]|
    ensures v.Defined? ==> v.value == data[r][c]
  {
    if 0 <= r < |data| && 0 <= c < |data[r]| then Defined(data[r][c]) else Undefined
  }

  /** A tile: its metadata and the rows of samples read from its file
      (the bounds are derived from the metadata by `DeriveBounds`). */
  datatype Dem = Dem(meta: DemType, data: seq<seq<Int16>>)

  /** The grid holds at least `nrows` rows of `ncols` samples. */
  predicate Complete(d: Dem) {
    |d.data| >= d.meta.nrows && forall i :: 0 <= i < |d.data| ==> |d.data[i]| == d.meta.ncols
  }

  /** Both queries answer the no-data value when either index component
      equals it. */
  predicate IsNodataIndex(t: DemType, rc: Index) {
    rc.row == t.nodata as real || rc.column == t.nodata as real
  }

  /** The nearest sample to a grid position: both components rounded,
      a row equal to `nrows` (or column equal to `ncols`) moved back by
      one. A negative rounded position converted to `size_t` is undefined
      behaviour. */
  function NearestAt(d: Dem, rc: Index): Lookup<Int16> {
    var r := Round(rc.row);
    var c := Round(rc.column);
    if r < 0 || c < 0 then Undefined
    else
      var r' := if r == d.meta.nrows then r - 1 else r;
      var c' := if c == d.meta.ncols then c - 1 else c;
      At(d.data, r', c')
  }

  /** `altitude` */
  function Altitude(d: Dem, latitude: real, longitude: real): Lookup<Int16> {
    var rc := IndexOf(d.meta, latitude, longitude);
    if IsNodataIndex(d.meta, rc) then Defined(d.meta.nodata) else NearestAt(d, rc)
  }

  /** The row (or column) `altitude` reads for position `x` of a grid with
      `n` rows (or columns). */
  function NearestLine(x: real, n: nat): int {
    var r := Round(x);
    if r == n then r - 1 else r
  }

  /** For a position in the range `index` produces, the line read is a line
      of the grid, and it is the nearest one unless the position is in the
      last half-cell, where it is the last line. */
  lemma NearestLineInGrid(x: real, n: nat)
    requires 0.0 <= x <= n as real && n > 0
    ensures 0 <= NearestLine(x, n) < n
    ensures x - 0.5 <= NearestLine(x, n) as real <= x + 0.5
         || (NearestLine(x, n) == n - 1 && x >= n as real - 0.5)
  {
  }

  /** Inside the bounds of a complete grid, `altitude` reads the sample of
      the nearest row and column, and is always defined. */
  lemma {:induction false} AltitudeIsNearestSample(d: Dem, latitude: real, longitude: real)
    requires Complete(d) && Within(DeriveBounds(d.meta), latitude, longitude)
    requires !IsNodataIndex(d.meta, IndexOf(d.meta, latitude, longitude))
    ensures var rc := IndexOf(d.meta, latitude, longitude);
      var r, c := NearestLine(rc.row, d.meta.nrows), NearestLine(rc.column, d.meta.ncols);
      0 <= r < d.meta.nrows && 0 <= c < d.meta.ncols
      && Altitude(d, latitude, longitude) == Defined(d.data[r][c])
  {
    var rc := IndexOf(d.meta, latitude, longitude);
    NearestLineInGrid(rc.row, d.meta.nrows);
    NearestLineInGrid(rc.column, d.meta.ncols);
  }

  /** A negative no-data value is never a grid position inside the bounds,
      so inside the bounds the queries always read the grid. */
  lemma NegativeNodataNeverIndex(t: DemType, latitude: real, longitude: real)
    requires t.nodata < 0 && Within(DeriveBounds(t), latitude, longitude)
    ensures !IsNodataIndex(t, IndexOf(t, latitude, longitude))
  {
  }

  /** Outside the bounds both queries return the no-data value. */
  lemma OutsideIsNodata(d: Dem, latitude: real, longitude: real)
    requires !Within(DeriveBounds(d.meta), latitude, longitude)
    ensures Altitude(d, latitude, longitude) == Defined(d.meta.nodata)
    ensures Interpolated(d, latitude, longitude) == Defined(d.meta.nodata as real)
  {
  }

  /** With a no-data value of 0, every point on the western edge of the
      tile has column index 0 and is answered with the no-data value
      instead of its sample. */
  lemma {:induction false} ZeroNodataHidesWesternEdge(d: Dem, latitude: real)
    requires d.meta.nodata == 0
    requires Within(DeriveBounds(d.meta), latitude, d.meta.xllcorner)
    ensures Altitude(d, latitude, d.meta.xllcorner) == Defined(0)
    ensures Interpolated(d, latitude, d.meta.xllcorner) == Defined(0.0)
  {
    WithinNonDegenerate(d.meta, latitude, d.meta.xllcorner);
    assert IndexOf(d.meta, latitude, d.meta.xllcorner).column == 0.0;
  }

  /** At a grid position of a complete grid away from the first row, whose
      row and column differ from the no-data value, the nearest query
      returns exactly the stored sample. */
  lemma {:induction false} AltitudeAtGridPoint(d: Dem, r: nat, c: nat)
    requires Complete(d) && d.meta.cellsize > 0.0 && r != d.meta.nodata as int && c != d.meta.nodata as int
    requires 1 <= r < d.meta.nrows && c < d.meta.ncols
    ensures var p := GridPoint(d.meta, r as real, c as real);
      Altitude(d, p.latitude, p.longitude) == Defined(d.data[r][c])
  {
    IndexOfGridPoint(d.meta, r as real, c as real);
    assert Round(r as real) == r && Round(c as real) == c;
    assert NearestAt(d, Index(r as real, c as real)) == At(d.data, r, c);
  }

  function Min(a: real, b: real): real {
    if b < a then b else a
  }

  /** `a + t * (b - a)`: the point a fraction `t` of the way from `a`
      to `b`. */
  function Lerp(a: real, b: real, t: real): real {
    (1.0 - t) * a + t * b
  }

  /** The four-sample weighted sum of `interpolated_altitude`, in the
      source's order of terms; undefined when any of the four reads is. */
  function Blend(dl: real, dc: real, nw: Lookup<Int16>, ne: Lookup<Int16>, sw: Lookup<Int16>, se: Lookup<Int16>)
    : Lookup<real>
  {
    if nw.Defined? && ne.Defined? && sw.Defined? && se.Defined? then
      Defined((1.0 - dl) * (1.0 - dc) * nw.value as real + dc * (1.0 - dl) * ne.value as real
              + (1.0 - dc) * dl * sw.value as real + dl * dc * se.value as real)
    else Undefined
  }

  /** The weighted sum is bilinear interpolation: across the columns of
      each of the two rows, then between the rows. */
  lemma BlendIsBilinear(dl: real, dc: real, nw: Int16, ne: Int16, sw: Int16, se: Int16)
    ensures Blend(dl, dc, Defined(nw), Defined(ne), Defined(sw), Defined(se))
         == Defined(Lerp(Lerp(nw as real, ne as real, dc), Lerp(sw as real, se as real, dc), dl))
  {
    var a, b, c, e := nw as real, ne as real, sw as real, se as real;
    var x := Blend(dl, dc, Defined(nw), Defined(ne), Defined(sw), Defined(se));
    assert x.value == (1.0 - dl) * (1.0 - dc) * a + dc * (1.0 - dl) * b + (1.0 - dc) * dl * c + dl * dc * e;
    var top, bottom := Lerp(a, b, dc), Lerp(c, e, dc);
    assert (1.0 - dl) * top == (1.0 - dl) * (1.0 - dc) * a + dc * (1.0 - dl) * b;
    assert dl * bottom == (1.0 - dc) * dl * c + dl * dc * e;
    assert Lerp(top, bottom, dl) == (1.0 - dl) * top + dl * bottom;
    assert x.value == Lerp(top, bottom, dl);
    assert x == Defined(x.value);
  }

  /** The bilinear blend at a grid position: the cell at the truncated
      position and its southern and eastern neighbours, the neighbour being
      the cell itself on the last row or column. */
  function BlendAt(d: Dem, rc: Index): Lookup<real>
    requires d.meta.nrows < SizeModulus && d.meta.ncols < SizeModulus
  {
    var r := Trunc(rc.row);
    var c := Trunc(rc.column);
    if r < 0 || c < 0 then Undefined
    else
      var lastRow := SizePred(d.meta.nrows);
      var lastColumn := SizePred(d.meta.ncols);
      var dl := Min(rc.row, lastRow as real) - r as real;
      var dc := Min(rc.column, lastColumn as real) - c as real;
      var nextR := if r == lastRow then r else r + 1;
      var nextC := if c == lastColumn then c else c + 1;
      Blend(dl, dc, At(d.data, r, c), At(d.data, r, nextC), At(d.data, nextR, c), At(d.data, nextR, nextC))
  }

  /** `interpolated_altitude` */
  function Interpolated(d: Dem, latitude: real, longitude: real): Lookup<real> {
    var rc := IndexOf(d.meta, latitude, longitude);
    if IsNodataIndex(d.meta, rc) then Defined(d.meta.nodata as real)
    else if d.meta.nrows >= SizeModulus || d.meta.ncols >= SizeModulus then Undefined
    else BlendAt(d, rc)
  }

  /** At a grid position of a complete grid away from the first row, whose
      row and column differ from the no-data value, the interpolation
      returns exactly the stored sample, as the nearest query does. */
  lemma {:induction false} InterpolatedAtGridPoint(d: Dem, r: nat, c: nat)
    requires Complete(d) && d.meta.cellsize > 0.0 && r != d.meta.nodata as int && c != d.meta.nodata as int
    requires 1 <= r < d.meta.nrows < SizeModulus && c < d.meta.ncols < SizeModulus
    ensures var p := GridPoint(d.meta, r as real, c as real);
      Interpolated(d, p.latitude, p.longitude) == Defined(d.data[r][c] as real)
  {
    IndexOfGridPoint(d.meta, r as real, c as real);
    BlendAtGridPosition(d, r, c);
  }

  /** At an integral position both fractions are zero and the blend is
      the sample itself, provided its neighbours exist. */
  lemma {:induction false} BlendAtGridPosition(d: Dem, r: nat, c: nat)
    requires Complete(d) && r < d.meta.nrows < SizeModulus && c < d.meta.ncols < SizeModulus
    ensures BlendAt(d, Index(r as real, c as real)) == Defined(d.data[r][c] as real)
  {
    assert Trunc(r as real) == r && Trunc(c as real) == c;
    var nextR := if r == d.meta.nrows - 1 then r else r + 1;
    var nextC := if c == d.meta.ncols - 1 then c else c + 1;
    var nw, ne, sw, se := At(d.data, r, c), At(d.data, r, nextC), At(d.data, nextR, c), At(d.data, nextR, nextC);
    assert nw.Defined? && ne.Defined? && sw.Defined? && se.Defined?;
    assert Min(r as real, (d.meta.nrows - 1) as real) == r as real;
    assert Min(c as real, (d.meta.ncols - 1) as real) == c as real;
    assert BlendAt(d, Index(r as real, c as real)) == Blend(0.0, 0.0, nw, ne, sw, se);
  }

  /** At the centre of a cell whose southern and eastern neighbours exist,
      the interpolation is the mean of the four samples. */
  lemma {:induction false} InterpolatedAtCellCentre(d: Dem, r: nat, c: nat)
    requires Complete(d) && d.meta.nrows < SizeModulus && d.meta.ncols < SizeModulus
    requires r + 1 < d.meta.nrows && c + 1 < d.meta.ncols
    ensures BlendAt(d, Index(r as real + 0.5, c as real + 0.5))
         == Defined((d.data[r][c] as real + d.data[r][c + 1] as real + d.data[r + 1][c] as real
                     + d.data[r + 1][c + 1] as real) / 4.0)
  {
    assert Trunc(r as real + 0.5) == r;
    assert Trunc(c as real + 0.5) == c;
    assert Min(r as real + 0.5, (d.meta.nrows - 1) as real) == r as real + 0.5;
    assert Min(c as real + 0.5, (d.meta.ncols - 1) as real) == c as real + 0.5;
    var nw, ne, sw, se := At(d.data, r, c + 1 - 1), At(d.data, r, c + 1), At(d.data, r + 1, c), At(d.data, r + 1, c + 1);
    assert nw.Defined? && ne.Defined? && sw.Defined? && se.Defined?;
    assert BlendAt(d, Index(r as real + 0.5, c as real + 0.5)) == Blend(0.5, 0.5, nw, ne, sw, se);
  }

  /** Inside the bounds of a complete grid and north of its southern edge,
      the interpolation is defined and lies between the least and the
      greatest of the four samples it blends. */
  lemma {:induction false} InterpolatedIsConvex(d: Dem, latitude: real, longitude: real)
    requires Complete(d) && d.meta.nrows < SizeModulus && d.meta.ncols < SizeModulus
    requires Within(DeriveBounds(d.meta), latitude, longitude)
    requires latitude > d.meta.yllcorner
    requires !IsNodataIndex(d.meta, IndexOf(d.meta, latitude, longitude))
    ensures var rc := IndexOf(d.meta, latitude, longitude);
      var r, c := Trunc(rc.row), Trunc(rc.column);
      var nextR := if r == d.meta.nrows - 1 then r else r + 1;
      var nextC := if c == d.meta.ncols - 1 then c else c + 1;
      var v := Interpolated(d, latitude, longitude);
      0 <= r <= nextR < d.meta.nrows && 0 <= c <= nextC < d.meta.ncols
      && v.Defined?
      && Min4(d.data[r][c], d.data[r][nextC], d.data[nextR][c], d.data[nextR][nextC]) as real <= v.value
      && v.value <= Max4(d.data[r][c], d.data[r][nextC], d.data[nextR][c], d.data[nextR][nextC]) as real
  {
    var t := d.meta;
    var rc := IndexOf(t, latitude, longitude);
    WithinNonDegenerate(t, latitude, longitude);
    SouthOfNorthEdge(t, latitude);
    assert rc.row < t.nrows as real;
    var r, c := Trunc(rc.row), Trunc(rc.column);
    var dl := Min(rc.row, (t.nrows - 1) as real) - r as real;
    var dc := Min(rc.column, (t.ncols - 1) as real) - c as real;
    assert 0.0 <= dl <= 1.0 && 0.0 <= dc <= 1.0;
    var nextR := if r == t.nrows - 1 then r else r + 1;
    var nextC := if c == t.ncols - 1 then c else c + 1;
    var nw, ne, sw, se := d.data[r][c], d.data[r][nextC], d.data[nextR][c], d.data[nextR][nextC];
    BlendIsBilinear(dl, dc, nw, ne, sw, se);
    var lo, hi := Min4(nw, ne, sw, se) as real, Max4(nw, ne, sw, se) as real;
    LerpBetween(nw as real, ne as real, dc, lo, hi);
    LerpBetween(sw as real, se as real, dc, lo, hi);
    LerpBetween(Lerp(nw as real, ne as real, dc), Lerp(sw as real, se as real, dc), dl, lo, hi);
  }

  /** North of the southern edge the row position is below `nrows`. */
  lemma SouthOfNorthEdge(t: DemType, latitude: real)
    requires t.cellsize > 0.0 && t.nrows > 0
    requires t.yllcorner < latitude
    ensures (DeriveBounds(t).ne.latitude - latitude) / t.cellsize < t.nrows as real
  {
    var q := (DeriveBounds(t).ne.latitude - latitude) / t.cellsize;
    assert q * t.cellsize == DeriveBounds(t).ne.latitude - latitude;
    if q >= t.nrows as real {
      MulMono(t.nrows as real, q, t.cellsize);
    }
  }

  function Min4(a: int, b: int, c: int, e: int): int {
    var m := if a < b then a else b;
    var n := if c < e then c else e;
    if m < n then m else n
  }

  function Max4(a: int, b: int, c: int, e: int): int {
    var m := if a > b then a else b;
    var n := if c > e then c else e;
    if m > n then m else n
  }

  lemma LerpBetween(a: real, b: real, t: real, lo: real, hi: real)
    requires 0.0 <= t <= 1.0 && lo <= a <= hi && lo <= b <= hi
    ensures lo <= Lerp(a, b, t) <= hi
  {
    assert Lerp(a, b, t) - lo == (1.0 - t) * (a - lo) + t * (b - lo);
    assert hi - Lerp(a, b, t) == (1.0 - t) * (hi - a) + t * (hi - b);
    MulNonnegative(1.0 - t, a - lo);
    MulNonnegative(t, b - lo);
    MulNonnegative(1.0 - t, hi - a);
    MulNonnegative(t, hi - b);
  }

  lemma MulNonnegative(x: real, y: real)
    requires x >= 0.0 && y >= 0.0
    ensures x * y >= 0.0
  {
  }

  /** On the southern edge of a grid of exactly `nrows` rows the
      interpolation reads row `nrows`, past the last row: its row
      position is `nrows`, whose truncation is neither the last row nor
      clamped. */
  lemma {:induction false} InterpolatedSouthEdgeReadsPastGrid(d: Dem, longitude: real)
    requires |d.data| == d.meta.nrows < SizeModulus && d.meta.ncols < SizeModulus
    requires d.meta.nodata < 0
    requires Within(DeriveBounds(d.meta), d.meta.yllcorner, longitude)
    ensures IndexOf(d.meta, d.meta.yllcorner, longitude).row == d.meta.nrows as real
    ensures Interpolated(d, d.meta.yllcorner, longitude) == Undefined
  {
    var t := d.meta;
    WithinNonDegenerate(t, t.yllcorner, longitude);
    assert (t.cellsize * t.nrows as real) / t.cellsize == t.nrows as real;
  }

  /** The samples `s` cut into consecutive rows of `ncols`; a final partial
      row is not part of the grid. */
  function Rows(s: seq<Int16>, ncols: nat): (rows: seq<seq<Int16>>)
    ensures forall i :: 0 <= i < |rows| ==> |rows[i]| == ncols
    decreases |s|
  {
    if ncols == 0 || |s| < ncols then [] else [s[..ncols]] + Rows(s[ncols..], ncols)
  }

  /** `p` consists of whole rows of `ncols` samples. */
  predicate WholeRows(p: seq<Int16>, ncols: nat)
    decreases |p|
  {
    |p| == 0 || (ncols > 0 && |p| >= ncols && WholeRows(p[ncols..], ncols))
  }

  lemma {:induction false} WholeRowsExtend(p: seq<Int16>, row: seq<Int16>, ncols: nat)
    requires WholeRows(p, ncols) && |row| == ncols > 0
    ensures WholeRows(p + row, ncols)
    decreases |p|
  {
    if |p| == 0 {
      assert p + row == row;
      assert row[ncols..] == [];
    } else {
      assert (p + row)[ncols..] == p[ncols..] + row;
      WholeRowsExtend(p[ncols..], row, ncols);
    }
  }

  /** Cutting `p + q` where `p` consists of whole rows. */
  lemma {:induction false} RowsAppend(p: seq<Int16>, q: seq<Int16>, ncols: nat)
    requires ncols > 0 && WholeRows(p, ncols)
    ensures Rows(p + q, ncols) == Rows(p, ncols) + Rows(q, ncols)
    decreases |p|
  {
    if |p| == 0 {
      assert p + q == q;
    } else {
      assert (p + q)[..ncols] == p[..ncols];
      assert (p + q)[ncols..] == p[ncols..] + q;
      RowsAppend(p[ncols..], q, ncols);
    }
  }

  /** Row `i` is the `i`-th run of `ncols` samples of the stream. */
  lemma {:induction false} RowsRow(s: seq<Int16>, ncols: nat, i: nat)
    requires ncols > 0 && |s| >= i * ncols + ncols
    ensures |Rows(s, ncols)| > i && Rows(s, ncols)[i] == s[i * ncols..i * ncols + ncols]
    decreases i
  {
    if i > 0 {
      var rest := s[ncols..];
      var k := (i - 1) * ncols;
      assert i * ncols == k + ncols by {
        MulSucc(i - 1, ncols);
      }
      RowsRow(rest, ncols, i - 1);
      assert Rows(s, ncols) == [s[..ncols]] + Rows(rest, ncols);
      assert Rows(s, ncols)[i] == Rows(rest, ncols)[i - 1];
      assert rest[k..k + ncols] == s[k + ncols..k + ncols + ncols];
    }
  }

  lemma RowsRowOfPrefix(s: seq<Int16>, ncols: nat, m: nat, i: nat)
    requires ncols > 0 && |s| >= m * ncols && i < m
    ensures i * ncols + ncols <= |s| && |Rows(s, ncols)| > i && Rows(s, ncols)[i] == s[i * ncols..i * ncols + ncols]
  {
    RowEndWithin(i, m, ncols);
    RowsRow(s, ncols, i);
  }

  /** `m` rows hold the samples row by row. */
  lemma {:induction false} RowsLayout(s: seq<Int16>, ncols: nat, m: nat)
    requires ncols > 0 && |s| >= m * ncols
    ensures |Rows(s, ncols)| >= m
    ensures forall i :: 0 <= i < m ==>
      i * ncols + ncols <= |s| && Rows(s, ncols)[i] == s[i * ncols..i * ncols + ncols]
  {
    if m > 0 {
      RowsRowOfPrefix(s, ncols, m, m - 1);
    }
    forall i | 0 <= i < m
      ensures i * ncols + ncols <= |s| && Rows(s, ncols)[i] == s[i * ncols..i * ncols + ncols]
    {
      RowsRowOfPrefix(s, ncols, m, i);
    }
  }

  /** A complete row pushed after whole rows becomes the last row. */
  lemma {:induction false} RowsPushRow(done: seq<Int16>, row: seq<Int16>, ncols: nat)
    requires WholeRows(done, ncols) && |row| == ncols > 0
    ensures Rows(done + row, ncols) == Rows(done, ncols) + [row]
    ensures WholeRows(done + row, ncols)
  {
    RowsAppend(done, row, ncols);
    WholeRowsExtend(done, row, ncols);
    assert row[..ncols] == row && row[ncols..] == [];
  }

  /** A final partial row is dropped. */
  lemma {:induction false} RowsDropPartial(done: seq<Int16>, row: seq<Int16>, ncols: nat)
    requires WholeRows(done, ncols) && |row| < ncols
    ensures Rows(done + row, ncols) == Rows(done, ncols)
  {
    RowsAppend(done, row, ncols);
  }

  /** `read`: the file's bytes taken two at a time in host order, each
      value passed through `serialize` (which reverses its bytes when
      `reverse`), and appended row by row, a row being pushed once it has
      `ncols` samples. The result is the file decoded in the byte order
      that `serialize` effectively reads, cut into rows. */
  method DecodeRows(bytes: seq<Byte>, ncols: nat, native: Endian, reverse: bool) returns (data: seq<seq<Int16>>)
    ensures data == Rows(DecodeAs(bytes, if reverse then Flip(native) else native), ncols)
  {
    ghost var order := if reverse then Flip(native) else native;
    ghost var vals := DecodeAs(bytes, order);
    var t := new Union16(native);
    data := [];
    var row: seq<Int16> := [];
    var columnCount := 0;
    var k := 0;
    ghost var done: seq<Int16> := [];
    while 2 * k + 2 <= |bytes|
      invariant t.Valid() && t.host == native && fresh(t.bytes)
      invariant k <= |vals| && done + row == vals[..k]
      invariant columnCount == |row|
      invariant ncols > 0 ==> columnCount < ncols
      invariant WholeRows(done, ncols) && data == Rows(done, ncols)
    {
      var s := ReadSample(t, bytes, k, reverse);
      SnocPrefix(vals, k, done, row);
      row := row + [s];
      columnCount := columnCount + 1;
      k := k + 1;
      if columnCount == ncols {
        RowsPushRow(done, row, ncols);
        data := data + [row];
        done := done + row;
        columnCount := 0;
        row := [];
        assert done + row == done;
      }
    }
    assert vals[..k] == vals;
    if ncols > 0 {
      RowsDropPartial(done, row, ncols);
    } else {
      assert Rows(vals, ncols) == [];
    }
  }

  /** Sample `k` of the file: its two bytes taken in host order and
      passed through `serialize`. */
  method ReadSample(t: Union16, bytes: seq<Byte>, k: nat, reverse: bool) returns (s: Int16)
    requires t.Valid() && 2 * k + 2 <= |bytes|
    modifies t.bytes
    ensures t.Valid()
    ensures s == DecodeAs(bytes, if reverse then Flip(t.host) else t.host)[k]
  {
    var value := ValueAs(bytes[2 * k], bytes[2 * k + 1], t.host);
    s := t.Serialize(value, reverse);
    ReadInOtherOrder(bytes[2 * k], bytes[2 * k + 1], t.host);
  }

  lemma SnocPrefix(vals: seq<Int16>, k: nat, done: seq<Int16>, row: seq<Int16>)
    requires k < |vals| && done + row == vals[..k]
    ensures done + (row + [vals[k]]) == vals[..k + 1]
  {
    assert done + (row + [vals[k]]) == (done + row) + [vals[k]];
    assert vals[..k + 1] == vals[..k] + [vals[k]];
  }

  /** The tile with metadata `t` whose file holds `bytes`, read in byte
      order `order`: what every variant's constructor builds, each with the
      byte order its `serialize` effectively reads. */
  function Decoded(t: DemType, bytes: seq<Byte>, order: Endian): Dem {
    Dem(t, Rows(DecodeAs(bytes, order), t.ncols))
  }

  /** A file with at least `nrows * ncols` samples decodes to a complete
      grid. */
  lemma {:induction false} DecodedGridComplete(meta: DemType, bytes: seq<Byte>, order: Endian)
    requires meta.ncols > 0 && |bytes| >= 2 * meta.nrows * meta.ncols
    ensures Complete(Decoded(meta, bytes, order))
  {
    var vals := DecodeAs(bytes, order);
    assert |vals| >= meta.nrows * meta.ncols;
    RowsLayout(vals, meta.ncols, meta.nrows);
  }

  /** A grid written row by row in byte order `order` and read back in that
      order is the grid. */
  lemma {:induction false} DecodeRowsOfEncoded(vs: seq<Int16>, ncols: nat, m: nat, order: Endian)
    requires ncols > 0 && |vs| == m * ncols
    ensures |Rows(DecodeAs(EncodeAs(vs, order), order), ncols)| == m
    ensures forall i :: 0 <= i < m ==>
      i * ncols + ncols <= |vs| && Rows(DecodeAs(EncodeAs(vs, order), order), ncols)[i] == vs[i * ncols..i * ncols + ncols]
  {
    DecodeEncode(vs, order);
    RowsLayout(vs, ncols, m);
    RowsCount(vs, ncols, m);
  }

  lemma {:induction false} RowsCount(s: seq<Int16>, ncols: nat, m: nat)
    requires ncols > 0 && |s| == m * ncols
    ensures |Rows(s, ncols)| == m
    decreases m
  {
    if m > 0 {
      assert |s[ncols..]| == (m - 1) * ncols;
      RowsCount(s[ncols..], ncols, m - 1);
    }
  }

  /** A grid of `nrows * ncols` samples written row by row in byte order
      `order` and read back in that order is a complete tile holding
      exactly that grid. */
  lemma {:induction false} WrittenGridRead(t: DemType, vs: seq<Int16>, order: Endian)
    requires t.ncols > 0 && |vs| == t.nrows * t.ncols
    ensures var d := Decoded(t, EncodeAs(vs, order), order);
      Complete(d) && |d.data| == t.nrows
      && forall i :: 0 <= i < t.nrows ==>
           i * t.ncols + t.ncols <= |vs| && d.data[i] == vs[i * t.ncols..i * t.ncols + t.ncols]
  {
    DecodeRowsOfEncoded(vs, t.ncols, t.nrows, order);
  }

  /** Read back in the order it was written, a grid answers the nearest
      query at each of its grid points (away from the first row, and
      with a row and column other than the no-data value) with the sample
      written there. */
  lemma {:induction false} AltitudeOfWrittenGrid(t: DemType, vs: seq<Int16>, order: Endian, r: nat, c: nat)
    requires t.ncols > 0 && |vs| == t.nrows * t.ncols
    requires t.cellsize > 0.0 && r != t.nodata as int && c != t.nodata as int
    requires 1 <= r < t.nrows && c < t.ncols
    ensures r * t.ncols + c < |vs|
    ensures var p := GridPoint(t, r as real, c as real);
      Altitude(Decoded(t, EncodeAs(vs, order), order), p.latitude, p.longitude) == Defined(vs[r * t.ncols + c])
  {
    var d := Decoded(t, EncodeAs(vs, order), order);
    WrittenGridRead(t, vs, order);
    assert d.data[r] == vs[r * t.ncols..r * t.ncols + t.ncols];
    assert d.data[r][c] == vs[r * t.ncols + c];
    AltitudeAtGridPoint(d, r, c);
  }
}
