/** mapcat.database.tools: the explicit-box tiler and the coverage records it yields. */
module DatabaseTools {
  import opened Common
  import opened SkyCoverage
  import opened Tiling
  import opened Catalog

  /** Zips the two index lists into tiles. */
  function Zip(xs: seq<int>, ys: seq<int>): (ts: seq<Tile>)
    requires |xs| == |ys|
    ensures |ts| == |xs|
  {
    if xs == [] then []
    else Zip(xs[..|xs| - 1], ys[..|ys| - 1]) + [Tile(xs[|xs| - 1], ys[|ys| - 1])]
  }

  lemma ZipSnoc(xs: seq<int>, ys: seq<int>, x: int, y: int)
    requires |xs| == |ys|
    ensures Zip(xs + [x], ys + [y]) == Zip(xs, ys) + [Tile(x, y)]
  {
    assert (xs + [x])[..|xs|] == xs;
    assert (ys + [y])[..|ys|] == ys;
  }

  lemma AppendAssoc(a: seq<Tile>, b: seq<Tile>, c: seq<Tile>)
    ensures (a + b) + c == a + (b + c)
  {
  }

  /** The inner loop of get_sky_coverage: for one RA origin, walks the Dec origins and
      appends the indices of every observed sub-box to the two index lists. */
  method ScanColumn(ra: int, decs: seq<int>, tmap: TimeMap, raIdx0: seq<int>, decId0: seq<int>)
    returns (raIdx: seq<int>, decId: seq<int>)
    requires |raIdx0| == |decId0|
    ensures |raIdx| == |decId|
    ensures Zip(raIdx, decId) == Zip(raIdx0, decId0) + Column(ra, decs, tmap.anyNonZero)
  {
    raIdx, decId := raIdx0, decId0;
    ghost var done := Zip(raIdx0, decId0);
    for j := 0 to |decs|
      invariant |raIdx| == |decId|
      invariant Zip(raIdx, decId) == done + Column(ra, decs[..j], tmap.anyNonZero)
    {
      var dec := decs[j];
      assert decs[..j + 1] == decs[..j] + [dec];
      ColumnSnoc(ra, decs[..j], dec, tmap.anyNonZero);
      if tmap.anyNonZero(SubBox(ra, dec)) {
        var x, y := Trunc(ra as real / 10.0), Trunc(dec as real / 10.0) + 9;
        ZipSnoc(raIdx, decId, x, y);
        AppendAssoc(done, Column(ra, decs[..j], tmap.anyNonZero), [Tile(x, y)]);
        raIdx := raIdx + [x];
        decId := decId + [y];
      }
    }
    assert decs[..|decs|] == decs;
  }

  /** get_sky_coverage(box, tmap): nested loops over the candidate origins append the
      x and y indices of every tile whose sub-box is observed; the result zips them. */
  method GetSkyCoverage(box: Box, tmap: TimeMap) returns (tiles: seq<Tile>)
    ensures tiles == CoverageOf(box, tmap.anyNonZero)
  {
    var s := Snap(box);
    var ras := Arange(s.raMin, s.raMax);
    var decs := Arange(s.decMin, s.decMax);
    var raIdx: seq<int> := [];
    var decId: seq<int> := [];
    for i := 0 to |ras|
      invariant |raIdx| == |decId|
      invariant Zip(raIdx, decId) == Sweep(ras[..i], decs, tmap.anyNonZero)
    {
      var ra := ras[i];
      raIdx, decId := ScanColumn(ra, decs, tmap, raIdx, decId);
      assert ras[..i + 1] == ras[..i] + [ra];
      SweepSnoc(ras[..i], ra, decs, tmap.anyNonZero);
    }
    assert ras[..|ras|] == ras;
    tiles := Zip(raIdx, decId);
  }

  /** The text a stored path is reported by: str(mean_time_path), "None" when unset. */
  function PathText(p: Option<string>): string
  {
    if p.Some? then p.value else "None"
  }

  /** coverage_from_depthone(d1map): hands mean_time_path, as stored and possibly unset,
      to the raster reader (not resolved against a root) and builds one record per tile.
      The original reads the box from d1map.box, which DepthOneMapTable does not declare;
      here it is a parameter. */
  method CoverageFromDepthOne(d1map: DepthOneMap, box: Box, readMap: Option<string> -> Option<TimeMap>)
    returns (r: Result<seq<CoverageRecord>>)
    ensures r.Ok? <==> readMap(d1map.meanTimePath).Some?
    ensures r.Err? ==> r.error == IOError(PathText(d1map.meanTimePath))
    ensures r.Ok? ==>
      r.value == RecordsFor(d1map.mapId, CoverageOf(box, readMap(d1map.meanTimePath).value.anyNonZero))
  {
    var loaded := readMap(d1map.meanTimePath);
    if loaded.None? {
      return Err(IOError(PathText(d1map.meanTimePath)));
    }
    var tiles := GetSkyCoverage(box, loaded.value);
    r := Ok(RecordsFor(d1map.mapId, tiles));
  }
}
