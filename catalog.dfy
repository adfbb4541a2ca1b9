/** The catalog a `Map` routes its queries through: an ordered map from
    the south-west corner of each one-degree tile to the tile's `Type`
    and file path, kept as `std::map<Coordinate, ...>` keeps it, and the
    tile file names that `initialize` accepts into it. */
module Catalog {
  import opened Wrappers
  import opened Samples
  import opened Geo
  import opened Text
  import opened Raster
  import opened Files

  /** One element of the `Grid`: the key, and the `Type` and file path it
      maps to. */
  datatype Item = Item(key: Coordinate, meta: DemType, path: string)

  type Grid = seq<Item>

  /** The order `std::map` keeps its elements in: keys strictly
      increasing under `operator<`, hence distinct. */
  predicate Ordered(g: Grid) {
    forall i, j :: 0 <= i < j < |g| ==> Less(g[i].key, g[j].key)
  }

  /** Every key of `g` lies after `b`. */
  predicate Above(b: Coordinate, g: Grid) {
    forall i :: 0 <= i < |g| ==> Less(b, g[i].key)
  }

  /** `grid.count(key) != 0`, and then `grid[key]`. */
  function Get(g: Grid, key: Coordinate): (r: Option<Item>)
    ensures r.Some? ==> r.value in g && r.value.key == key
    ensures r.None? <==> forall i :: 0 <= i < |g| ==> g[i].key != key
  {
    if g == [] then None
    else if g[0].key == key then Some(g[0])
    else
      var r := Get(g[1..], key);
      assert forall i :: 1 <= i < |g| ==> g[i] == g[1..][i - 1];
      r
  }

  /** `grid[key] = {type, path}`: the item replaces the element with its
      key, or is inserted where the order puts it. */
  function Put(g: Grid, item: Item): Grid {
    if g == [] then [item]
    else if g[0].key == item.key then [item] + g[1..]
    else if Less(item.key, g[0].key) then [item] + g
    else [g[0]] + Put(g[1..], item)
  }

  lemma GetCons(x: Item, t: Grid, key: Coordinate)
    ensures Get([x] + t, key) == if x.key == key then Some(x) else Get(t, key)
  {
    assert ([x] + t)[1..] == t;
  }

  /** A bound below every key and below the new key stays below every key
      after `Put`. */
  lemma {:induction false} PutAbove(g: Grid, item: Item, b: Coordinate)
    requires Above(b, g) && Less(b, item.key)
    ensures Above(b, Put(g, item))
  {
    if g != [] && g[0].key != item.key && !Less(item.key, g[0].key) {
      PutAbove(g[1..], item, b);
    }
  }

  /** `Put` keeps the order, maps the item's key to the item, and leaves
      every other key as it was. */
  lemma {:induction false} PutIsAssignment(g: Grid, item: Item)
    requires Ordered(g)
    ensures Ordered(Put(g, item))
    ensures Get(Put(g, item), item.key) == Some(item)
    ensures forall k :: k != item.key ==> Get(Put(g, item), k) == Get(g, k)
  {
    if g == [] {
      forall k | k != item.key
        ensures Get(Put(g, item), k) == Get(g, k)
      {
        GetCons(item, [], k);
      }
    } else if g[0].key == item.key {
      forall k
        ensures Get(Put(g, item), k) == if k == item.key then Some(item) else Get(g, k)
      {
        GetCons(item, g[1..], k);
        GetCons(g[0], g[1..], k);
        assert g == [g[0]] + g[1..];
      }
    } else if Less(item.key, g[0].key) {
      forall i | 0 < i < |g|
        ensures Less(item.key, g[i].key)
      {
        LessIsStrictTotalOrder(item.key, g[0].key, g[i].key);
      }
      forall k
        ensures Get(Put(g, item), k) == if k == item.key then Some(item) else Get(g, k)
      {
        GetCons(item, g, k);
      }
    } else {
      var rest := Put(g[1..], item);
      LessIsStrictTotalOrder(g[0].key, item.key, g[0].key);
      assert Less(g[0].key, item.key);
      assert Ordered(g[1..]);
      PutIsAssignment(g[1..], item);
      PutAbove(g[1..], item, g[0].key);
      assert Put(g, item) == [g[0]] + rest;
      forall k
        ensures Get(Put(g, item), k) == if k == item.key then Some(item) else Get(g, k)
      {
        GetCons(g[0], rest, k);
        GetCons(g[0], g[1..], k);
        assert g == [g[0]] + g[1..];
      }
    }
  }

  /** `grid.cbegin()`: in an ordered grid no key lies before the first. */
  lemma FirstHoldsLeastKey(g: Grid)
    requires Ordered(g) && g != []
    ensures forall i :: 0 <= i < |g| ==> !Less(g[i].key, g[0].key)
  {
    forall i | 0 < i < |g|
      ensures !Less(g[i].key, g[0].key)
    {
      LessIsStrictTotalOrder(g[0].key, g[i].key, g[0].key);
    }
  }

  /** The key `load` looks up: the floored latitude and longitude. */
  function FloorKey(latitude: real, longitude: real): (k: Coordinate)
    ensures k.latitude.Floor as real == k.latitude && k.longitude.Floor as real == k.longitude
    ensures k.latitude <= latitude < k.latitude + 1.0 && k.longitude <= longitude < k.longitude + 1.0
    ensures Within(UnitBounds(k.latitude.Floor, k.longitude.Floor), latitude, longitude)
  {
    UnitBoundsPartition(Floor(latitude), Floor(longitude), latitude, longitude);
    Coordinate(Floor(latitude) as real, Floor(longitude) as real)
  }

  /** A tile whose `Type` spans one degree from its key contains every
      point whose floored coordinates are that key, and no other point. */
  lemma {:induction false} UnitTileHoldsFlooredPoints(t: DemType, latitude: real, longitude: real)
    requires t.cellsize * t.nrows as real == 1.0 && t.cellsize * t.ncols as real == 1.0
    requires t.yllcorner.Floor as real == t.yllcorner && t.xllcorner.Floor as real == t.xllcorner
    ensures Within(DeriveBounds(t), latitude, longitude)
        <==> FloorKey(latitude, longitude) == Coordinate(t.yllcorner, t.xllcorner)
  {
    var lat, lon := t.yllcorner.Floor, t.xllcorner.Floor;
    assert DeriveBounds(t).sw == UnitBounds(lat, lon).sw;
    assert DeriveBounds(t).ne == UnitBounds(lat, lon).ne;
    UnitBoundsPartition(lat, lon, latitude, longitude);
  }

  /** `[-]?\d{1,n}`: an optional minus sign, then one to `n` digits. */
  predicate SignedDigits(s: string, n: nat) {
    var digits := if |s| > 0 && s[0] == '-' then s[1..] else s;
    0 < |digits| <= n && AllDigits(digits)
  }

  /** The number a signed digit group denotes. */
  function SignedValue(s: string, n: nat): int
    requires SignedDigits(s, n)
  {
    if s[0] == '-' then -(ValueOfDigits(s[1..]) as int) else ValueOfDigits(s)
  }

  /** `std::stod` of a matched group reads the number the group denotes. */
  lemma {:induction false} StodReadsGroup(s: string, n: nat)
    requires SignedDigits(s, n)
    ensures ParseInt(s) == Some(SignedValue(s, n))
  {
    assert !IsSpace(s[0]);
    assert SkipSpace(s, 0) == 0;
    if s[0] == '-' {
      assert s[1..] == s[1..][0..];
      DigitRunToEnd(s, 1);
      assert s[1..|s|] == s[1..];
      assert ScanInt(s, 0) == Some((SignedValue(s, n), |s|));
    } else {
      assert s == s[0..];
      DigitRunToEnd(s, 0);
      assert s[0..|s|] == s;
      assert ScanInt(s, 0) == Some((SignedValue(s, n), |s|));
    }
  }

  /** A full match of `([-]?\d{1,2}|90)_([-]?\d{1,3}|180)\.bin` and the
      two numbers its groups denote. The alternatives `90` and `180` are
      already matched by `[-]?\d{1,2}` and `[-]?\d{1,3}`; neither group
      can hold `_`, so the name splits at its first one. */
  function MatchTileName(name: string): (r: Option<(int, int)>)
    ensures r.Some? ==> -99 <= r.value.0 <= 99 && -999 <= r.value.1 <= 999
  {
    var k := Find(name, '_');
    if k + 5 <= |name| && name[|name| - 4..] == ".bin"
       && SignedDigits(name[..k], 2) && SignedDigits(name[k + 1..|name| - 4], 3)
    then
      SignedValueBound(name[..k], 2);
      SignedValueBound(name[k + 1..|name| - 4], 3);
      Some((SignedValue(name[..k], 2), SignedValue(name[k + 1..|name| - 4], 3)))
    else None
  }

  function Pow10(n: nat): (p: nat)
    ensures p >= 1
  {
    if n == 0 then 1 else 10 * Pow10(n - 1)
  }

  /** `k` digits denote a number below `10^k`. */
  lemma {:induction false} ValueOfDigitsBound(s: string)
    requires AllDigits(s)
    ensures ValueOfDigits(s) < Pow10(|s|)
  {
    if s != [] {
      ValueOfDigitsBound(s[..|s| - 1]);
    }
  }

  lemma PowMono(m: nat, n: nat)
    requires m <= n
    ensures Pow10(m) <= Pow10(n)
    decreases n
  {
    if m < n {
      PowMono(m, n - 1);
    }
  }

  lemma SignedValueBound(s: string, n: nat)
    requires SignedDigits(s, n)
    ensures -(Pow10(n) as int) < SignedValue(s, n) < Pow10(n)
  {
    var digits := if s[0] == '-' then s[1..] else s;
    ValueOfDigitsBound(digits);
    PowMono(|digits|, n);
  }

  /** A number has at most `k` digits exactly when it is below `10^k`. */
  lemma {:induction false} DigitsOfLength(v: nat, k: nat)
    requires k > 0
    ensures |DigitsOf(v)| <= k <==> v < Pow10(k)
  {
    if v >= 10 && k > 1 {
      DigitsOfLength(v / 10, k - 1);
    }
  }

  /** A written integer is a signed digit group of at most `n` digits
      exactly when it lies strictly between `-10^n` and `10^n`, and then
      it denotes itself. */
  lemma {:induction false} RenderedGroup(v: int, n: nat)
    requires n > 0
    ensures SignedDigits(Render(v), n) <==> -(Pow10(n) as int) < v < Pow10(n)
    ensures SignedDigits(Render(v), n) ==> SignedValue(Render(v), n) == v
  {
    var s := Render(v);
    if v < 0 {
      assert s[1..] == DigitsOf(-v);
      DigitsOfLength(-v, n);
      DigitsRoundTrip(-v);
    } else {
      DigitsOfLength(v, n);
      DigitsRoundTrip(v);
    }
  }

  /** The file name of the tile with corner (`lat`, `lon`) matches the
      pattern exactly when both numbers fit their groups, and then it
      denotes them. */
  lemma {:induction false} RenderedTileName(lat: int, lon: int)
    ensures MatchTileName(Render(lat) + "_" + Render(lon) + ".bin")
         == if -99 <= lat <= 99 && -999 <= lon <= 999 then Some((lat, lon)) else None
  {
    MatchTileNameOfParts(Render(lat), Render(lon));
    RenderedGroup(lat, 2);
    RenderedGroup(lon, 3);
  }

  /** A name made of a group without underscores, an underscore, a second
      group and `.bin` matches exactly when both groups are signed digit
      groups of the right widths. */
  lemma MatchTileNameOfParts(a: string, b: string)
    requires forall i :: 0 <= i < |a| ==> a[i] != '_'
    ensures MatchTileName(a + "_" + b + ".bin")
         == if SignedDigits(a, 2) && SignedDigits(b, 3) then Some((SignedValue(a, 2), SignedValue(b, 3))) else None
  {
    var name := a + "_" + b + ".bin";
    assert name == a + ['_'] + (b + ".bin");
    SplitAtFirst(a, '_', b + ".bin");
    assert name[|name| - 4..] == ".bin";
    assert name[|a| + 1..|name| - 4] == (b + ".bin")[..|b|] == b;
  }

  /** `initialize`'s test of a file name: it matches the pattern and its
      numbers are a latitude in [-90, 90] and a longitude in [-180, 180].
      The result is the catalog key. */
  function Accept(name: string): (r: Option<Coordinate>)
    ensures r.Some? ==> InRange(r.value.latitude, r.value.longitude)
    ensures r.Some? ==> (r.value.latitude.Floor as real == r.value.latitude
                         && r.value.longitude.Floor as real == r.value.longitude)
  {
    match MatchTileName(name)
    case None => None
    case Some((lat, lon)) =>
      if -90 <= lat <= 90 && -180 <= lon <= 180 then Some(Coordinate(lat as real, lon as real)) else None
  }

  /** The tile of every integral corner in range is accepted under its
      own key, and no other written corner is. */
  lemma {:induction false} AcceptTileName(lat: int, lon: int)
    ensures Accept(Render(lat) + "_" + Render(lon) + ".bin")
         == if -90 <= lat <= 90 && -180 <= lon <= 180 then Some(Coordinate(lat as real, lon as real)) else None
  {
    RenderedTileName(lat, lon);
  }

  /** A file `initialize` may consider: the file name it tests against the
      pattern and the path it stores. */
  datatype Candidate = Candidate(name: string, path: string)

  /** The catalog built from `files` in order: each accepted name, keyed
      by its corner, is assigned the metadata `meta` gives for that
      corner, a later file replacing an earlier one of the same key. */
  function Catalogue(files: seq<Candidate>, nrows: nat, ncols: nat, cellsize: real, nodata: Int16): (g: Grid)
    ensures Ordered(g)
    decreases |files|
  {
    if files == [] then []
    else Admit(Catalogue(files[..|files| - 1], nrows, ncols, cellsize, nodata), files[|files| - 1], nrows, ncols, cellsize, nodata)
  }

  /** One file considered by `initialize`: an accepted name assigns its
      key the metadata of that corner and the file's path. */
  function Admit(g: Grid, f: Candidate, nrows: nat, ncols: nat, cellsize: real, nodata: Int16): (h: Grid)
    requires Ordered(g)
    ensures Ordered(h)
  {
    match Accept(f.name)
    case None => g
    case Some(key) =>
      var item := Item(key, DemType(nrows, ncols, key.latitude, key.longitude, cellsize, nodata), f.path);
      PutIsAssignment(g, item);
      Put(g, item)
  }

  /** The last file of `files` accepted under `key`. */
  function LastAccepted(files: seq<Candidate>, key: Coordinate): Option<Candidate>
    decreases |files|
  {
    if files == [] then None
    else if Accept(files[|files| - 1].name) == Some(key) then Some(files[|files| - 1])
    else LastAccepted(files[..|files| - 1], key)
  }

  /** The catalog maps each key to the last file accepted under it, with
      the metadata of that key, and holds no other key. */
  lemma {:induction false} CatalogueLookup(files: seq<Candidate>, nrows: nat, ncols: nat, cellsize: real, nodata: Int16, key: Coordinate)
    ensures Get(Catalogue(files, nrows, ncols, cellsize, nodata), key)
         == match LastAccepted(files, key)
            case None => None
            case Some(f) => Some(Item(key, DemType(nrows, ncols, key.latitude, key.longitude, cellsize, nodata), f.path))
    decreases |files|
  {
    if files != [] {
      var prefix := files[..|files| - 1];
      var g := Catalogue(prefix, nrows, ncols, cellsize, nodata);
      CatalogueLookup(prefix, nrows, ncols, cellsize, nodata, key);
      var f := files[|files| - 1];
      match Accept(f.name)
      case None =>
      case Some(k) =>
        PutIsAssignment(g, Item(k, DemType(nrows, ncols, k.latitude, k.longitude, cellsize, nodata), f.path));
    }
  }
  /** Some file of `files` has an accepted name. */
  predicate AnyAccepted(files: seq<Candidate>)
    decreases |files|
  {
    files != [] && (AnyAccepted(files[..|files| - 1]) || Accept(files[|files| - 1].name).Some?)
  }

  /** What `initialize` returns for the files it considers, in order,
      when every accepted file gets a validating `Type(nrows, ncols, lat,
      lon, cellsize, nodata)`: the first accepted file throws when the
      dimensions are zero; otherwise the catalog. */
  function Catalogued(files: seq<Candidate>, nrows: nat, ncols: nat, cellsize: real, nodata: Int16)
    : (r: Result<Grid, TypeError>)
    ensures r.Ok? ==> Ordered(r.value)
    ensures r.Err? <==> (nrows == 0 || ncols == 0) && AnyAccepted(files)
  {
    if (nrows == 0 || ncols == 0) && AnyAccepted(files) then Err(InvalidDimensions)
    else Ok(Catalogue(files, nrows, ncols, cellsize, nodata))
  }

  /** The loop of `initialize` over the files it considers: each accepted
      name gets a `Type` keyed by its corner, inserted or assigned in the
      catalog. */
  method BuildCatalogue(files: seq<Candidate>, nrows: nat, ncols: nat, cellsize: real, nodata: Int16)
    returns (r: Result<Grid, TypeError>)
    ensures r == Catalogued(files, nrows, ncols, cellsize, nodata)
  {
    var grid: Grid := [];
    var k := 0;
    while k < |files|
      invariant k <= |files|
      invariant grid == Catalogue(files[..k], nrows, ncols, cellsize, nodata)
      invariant nrows == 0 || ncols == 0 ==> !AnyAccepted(files[..k])
    {
      var next := Consider(grid, files[k], nrows, ncols, cellsize, nodata);
      AcceptedStep(files, k);
      if next.Err? {
        AcceptedAt(files, k);
        return next;
      }
      CatalogueStep(files, k, nrows, ncols, cellsize, nodata);
      grid := next.value;
      k := k + 1;
    }
    assert files[..k] == files;
    return Ok(grid);
  }
  /** The body of that loop for one file: its name tested, its `Type`
      built, and the catalog assigned. */
  method Consider(grid: Grid, f: Candidate, nrows: nat, ncols: nat, cellsize: real, nodata: Int16)
    returns (r: Result<Grid, TypeError>)
    requires Ordered(grid)
    ensures r.Err? <==> Accept(f.name).Some? && (nrows == 0 || ncols == 0)
    ensures r.Err? ==> r.error == InvalidDimensions
    ensures r.Ok? ==> r.value == Admit(grid, f, nrows, ncols, cellsize, nodata)
  {
    match Accept(f.name) {
      case None =>
        return Ok(grid);
      case Some(key) =>
        var t := MakeType(nrows, ncols, key.latitude, key.longitude, cellsize, nodata);
        if t.Err? {
          return Err(t.error);
        }
        return Ok(Put(grid, Item(key, t.value, f.path)));
    }
  }

  /** One more file extends the catalog by `Admit`. */
  lemma CatalogueStep(files: seq<Candidate>, k: nat, nrows: nat, ncols: nat, cellsize: real, nodata: Int16)
    requires k < |files|
    ensures Catalogue(files[..k + 1], nrows, ncols, cellsize, nodata)
         == Admit(Catalogue(files[..k], nrows, ncols, cellsize, nodata), files[k], nrows, ncols, cellsize, nodata)
  {
    var p := files[..k + 1];
    assert p[..k] == files[..k];
  }

  /** One more file adds to the files seen whether it is accepted. */
  lemma AcceptedStep(files: seq<Candidate>, k: nat)
    requires k < |files|
    ensures AnyAccepted(files[..k + 1]) <==> AnyAccepted(files[..k]) || Accept(files[k].name).Some?
  {
    var p := files[..k + 1];
    assert p[..k] == files[..k];
  }

  /** A file accepted among the first `k + 1` is accepted among all. */
  lemma {:induction false} AcceptedAt(files: seq<Candidate>, k: nat)
    requires k < |files| && AnyAccepted(files[..k + 1])
    ensures AnyAccepted(files)
    decreases |files|
  {
    if k + 1 < |files| {
      var p := files[..|files| - 1];
      assert p[..k + 1] == files[..k + 1];
      AcceptedAt(p, k);
    } else {
      assert files[..k + 1] == files;
    }
  }
  lemma CatalogueSnoc(files: seq<Candidate>, f: Candidate, nrows: nat, ncols: nat, cellsize: real, nodata: Int16)
    ensures Catalogue(files + [f], nrows, ncols, cellsize, nodata)
         == Admit(Catalogue(files, nrows, ncols, cellsize, nodata), f, nrows, ncols, cellsize, nodata)
    ensures AnyAccepted(files + [f]) <==> AnyAccepted(files) || Accept(f.name).Some?
  {
    assert (files + [f])[..|files|] == files;
  }

  /** More files keep an accepted file accepted. */
  lemma {:induction false} AnyAcceptedAppend(files: seq<Candidate>, more: seq<Candidate>)
    requires AnyAccepted(files)
    ensures AnyAccepted(files + more)
    decreases |more|
  {
    if more == [] {
      assert files + more == files;
    } else {
      var init := more[..|more| - 1];
      AnyAcceptedAppend(files, init);
      assert (files + more)[..|files + more| - 1] == files + init;
    }
  }

  /** The regular files of a listing of `dir`, in order: each tested
      under its file name and stored under `dir / name`. */
  function RegularFiles(dir: string, entries: seq<Entry>): (files: seq<Candidate>)
    ensures |files| <= |entries|
    decreases |entries|
  {
    if entries == [] then []
    else
      var e := entries[|entries| - 1];
      RegularFiles(dir, entries[..|entries| - 1])
        + (if e.kind == RegularFile then [Candidate(e.name, Join(dir, e.name))] else [])
  }

  /** A candidate is considered exactly when a regular file of the
      listing has its name and path. */
  lemma {:induction false} RegularFilesOfListing(dir: string, entries: seq<Entry>, c: Candidate)
    ensures c in RegularFiles(dir, entries)
        <==> exists j :: 0 <= j < |entries| && entries[j].kind == RegularFile
                         && c == Candidate(entries[j].name, Join(dir, entries[j].name))
    decreases |entries|
  {
    if entries != [] {
      var init := entries[..|entries| - 1];
      RegularFilesOfListing(dir, init, c);
      if exists j :: 0 <= j < |entries| && entries[j].kind == RegularFile
                     && c == Candidate(entries[j].name, Join(dir, entries[j].name)) {
        var j :| 0 <= j < |entries| && entries[j].kind == RegularFile
                 && c == Candidate(entries[j].name, Join(dir, entries[j].name));
        if j < |entries| - 1 {
          assert init[j] == entries[j];
        }
      }
      if c in RegularFiles(dir, init) {
        var j :| 0 <= j < |init| && init[j].kind == RegularFile
                 && c == Candidate(init[j].name, Join(dir, init[j].name));
        assert entries[j] == init[j];
      }
    }
  }

  lemma {:induction false} RegularFilesPrefix(dir: string, entries: seq<Entry>, k: nat)
    requires k <= |entries|
    ensures exists more :: RegularFiles(dir, entries) == RegularFiles(dir, entries[..k]) + more
    decreases |entries|
  {
    if k == |entries| {
      assert entries[..k] == entries;
      assert RegularFiles(dir, entries) == RegularFiles(dir, entries[..k]) + [];
    } else {
      var init := entries[..|entries| - 1];
      assert init[..k] == entries[..k];
      RegularFilesPrefix(dir, init, k);
      var more :| RegularFiles(dir, init) == RegularFiles(dir, entries[..k]) + more;
      var e := entries[|entries| - 1];
      var last := if e.kind == RegularFile then [Candidate(e.name, Join(dir, e.name))] else [];
      assert RegularFiles(dir, entries) == RegularFiles(dir, entries[..k]) + (more + last);
    }
  }

  /** The loop of `initialize` over a directory listing: each regular
      file whose name is accepted gets a `Type` keyed by its corner,
      inserted or assigned in the catalog. */
  method CatalogueRegularFiles(dir: string, entries: seq<Entry>, nrows: nat, ncols: nat, cellsize: real, nodata: Int16)
    returns (r: Result<Grid, TypeError>)
    ensures r == Catalogued(RegularFiles(dir, entries), nrows, ncols, cellsize, nodata)
  {
    var grid: Grid := [];
    var k := 0;
    while k < |entries|
      invariant k <= |entries|
      invariant grid == Catalogue(RegularFiles(dir, entries[..k]), nrows, ncols, cellsize, nodata)
      invariant nrows == 0 || ncols == 0 ==> !AnyAccepted(RegularFiles(dir, entries[..k]))
    {
      var e := entries[k];
      var seen := RegularFiles(dir, entries[..k]);
      assert entries[..k + 1][..k] == entries[..k];
      if e.kind == RegularFile {
        var f := Candidate(e.name, Join(dir, e.name));
        assert RegularFiles(dir, entries[..k + 1]) == seen + [f];
        var next := Consider(grid, f, nrows, ncols, cellsize, nodata);
        CatalogueSnoc(seen, f, nrows, ncols, cellsize, nodata);
        if next.Err? {
          RegularFilesPrefix(dir, entries, k + 1);
          var more :| RegularFiles(dir, entries) == seen + [f] + more;
          AnyAcceptedAppend(seen + [f], more);
          return next;
        }
        grid := next.value;
      } else {
        assert RegularFiles(dir, entries[..k + 1]) == seen;
      }
      k := k + 1;
    }
    assert entries[..k] == entries;
    return Ok(grid);
  }
}
