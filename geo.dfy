/** Geographic coordinates, their ordering as map keys, and the bounding
    box of a tile. Floating-point latitudes and longitudes are modelled as
    real numbers. */
module Geo {
  import opened Wrappers

  datatype Coordinate = Coordinate(latitude: real, longitude: real)

  /** The default-constructed coordinate. */
  const Origin := Coordinate(0.0, 0.0)

  predicate InRange(latitude: real, longitude: real) {
    -90.0 <= latitude <= 90.0 && -180.0 <= longitude <= 180.0
  }

  datatype GeoError = InvalidCoordinates(latitude: real, longitude: real)

  /** The validating constructor: it throws for a latitude outside
      [-90, 90] or a longitude outside [-180, 180]. */
  function MakeCoordinate(latitude: real, longitude: real): (r: Result<Coordinate, GeoError>)
    ensures r.Ok? <==> InRange(latitude, longitude)
    ensures r.Ok? ==> r.value.latitude == latitude && r.value.longitude == longitude
    ensures r.Err? ==> r.error == InvalidCoordinates(latitude, longitude)
  {
    if latitude > 90.0 || latitude < -90.0 || longitude > 180.0 || longitude < -180.0 then
      Err(InvalidCoordinates(latitude, longitude))
    else
      Ok(Coordinate(latitude, longitude))
  }

  /** `operator<`: by latitude, and by longitude between equal latitudes. */
  predicate Less(a: Coordinate, b: Coordinate) {
    if a.latitude == b.latitude then a.longitude < b.longitude else a.latitude < b.latitude
  }

  /** `operator==`: both components equal. */
  predicate Same(a: Coordinate, b: Coordinate) {
    a.latitude == b.latitude && a.longitude == b.longitude
  }

  /** `operator<` is a strict total order whose equivalence is `operator==`
      and structural equality, so keying a `std::map` by coordinates is
      keying a Dafny `map` by them. */
  lemma LessIsStrictTotalOrder(a: Coordinate, b: Coordinate, c: Coordinate)
    ensures !Less(a, a)
    ensures Less(a, b) ==> !Less(b, a)
    ensures Less(a, b) && Less(b, c) ==> Less(a, c)
    ensures !Less(a, b) && !Less(b, a) <==> Same(a, b)
    ensures Same(a, b) <==> a == b
  {
  }

  /** `operator<` compares latitudes first, then longitudes. */
  lemma LessIsLexicographic(a: Coordinate, b: Coordinate)
    ensures Less(a, b) <==> a.latitude < b.latitude || (a.latitude == b.latitude && a.longitude < b.longitude)
  {
  }

  datatype Bounds = Bounds(nw: Coordinate, ne: Coordinate, sw: Coordinate, se: Coordinate)

  /** `Bounds::within`: south-west edges included, north-east edges
      excluded. */
  predicate Within(b: Bounds, latitude: real, longitude: real) {
    latitude >= b.sw.latitude && latitude < b.ne.latitude
    && longitude >= b.sw.longitude && longitude < b.ne.longitude
  }

  /** The greatest integer not above `x` (`std::floor`). */
  function Floor(x: real): (n: int)
    ensures n as real <= x < n as real + 1.0
  {
    x.Floor
  }

  /** The one-degree box whose south-west corner is (lat, lon). */
  function UnitBounds(lat: int, lon: int): Bounds {
    Bounds(Coordinate(lat as real + 1.0, lon as real), Coordinate(lat as real + 1.0, lon as real + 1.0),
           Coordinate(lat as real, lon as real), Coordinate(lat as real, lon as real + 1.0))
  }

  /** One-degree boxes at integer corners tile the plane: a point lies in
      exactly the box whose corner is its floored latitude and longitude. */
  lemma {:induction false} UnitBoundsPartition(lat: int, lon: int, latitude: real, longitude: real)
    ensures Within(UnitBounds(lat, lon), latitude, longitude) <==> lat == Floor(latitude) && lon == Floor(longitude)
  {
    var fl, fn := Floor(latitude), Floor(longitude);
    if Within(UnitBounds(lat, lon), latitude, longitude) {
      assert lat as real <= latitude < lat as real + 1.0;
      assert fl as real <= latitude < fl as real + 1.0;
      assert lat == fl;
      assert lon == fn;
    }
  }
}
