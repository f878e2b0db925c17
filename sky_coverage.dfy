/** The depth_one_sky_coverage table: which 10x10 degree CAR tiles a depth-1 map
    overlaps, keyed by (map_id, x, y). */
module SkyCoverage {

  /** A sky rectangle in the layout [[decMin, raMax], [decMax, raMin]], in degrees. */
  datatype Box = Box(decMin: real, raMax: real, decMax: real, raMin: real)

  /** A tile of the global 10x10 degree grid. */
  datatype Tile = Tile(x: int, y: int)

  /** The sky region of a tile: x = 0 runs from RA 0 to 10, y = 0 from Dec -90 to -80. */
  function TileBox(t: Tile): Box
  {
    Box((10 * t.y - 90) as real, (10 * t.x + 10) as real, (10 * t.y - 80) as real, (10 * t.x) as real)
  }

  /** The point (ra, dec) lies in the half-open region of tile t. */
  predicate InTile(ra: real, dec: real, t: Tile)
  {
    var b := TileBox(t);
    b.raMin <= ra < b.raMax && b.decMin <= dec < b.decMax
  }

  /** The documented index space: x in [0, 36), y in [0, 18). */
  predicate InIndexSpace(t: Tile)
  {
    0 <= t.x < 36 && 0 <= t.y < 18
  }

  /** The tile a sky position falls in: x = floor(ra / 10), y = floor(dec / 10) + 9. */
  function TileContaining(ra: real, dec: real): (t: Tile)
    ensures InTile(ra, dec, t)
    ensures 0.0 <= ra < 360.0 && -90.0 <= dec < 90.0 ==> InIndexSpace(t)
  {
    Tile((ra / 10.0).Floor, (dec / 10.0).Floor + 9)
  }

  /** Tiles partition the sky: a point lies in exactly one tile. */
  lemma TileContainingIsUnique(ra: real, dec: real, t: Tile)
    ensures InTile(ra, dec, t) <==> t == TileContaining(ra, dec)
  {
    if InTile(ra, dec, t) {
      assert t.x as real <= ra / 10.0 < t.x as real + 1.0;
      assert (t.y - 9) as real <= dec / 10.0 < (t.y - 9) as real + 1.0;
    }
  }

  /** One row of depth_one_sky_coverage. */
  datatype CoverageRecord = CoverageRecord(mapId: int, x: int, y: int)

  function RecordTile(r: CoverageRecord): Tile
  {
    Tile(r.x, r.y)
  }

  /** The composite primary key sky_cov_id. */
  function Key(r: CoverageRecord): (int, int, int)
  {
    (r.mapId, r.x, r.y)
  }

  predicate KeysUnique(rs: seq<CoverageRecord>)
  {
    forall i, j | 0 <= i < j < |rs| :: Key(rs[i]) != Key(rs[j])
  }

  predicate Distinct<T(==)>(s: seq<T>)
  {
    forall i, j | 0 <= i < j < |s| :: s[i] != s[j]
  }

  /** The records coverage_from_depthone builds: one per tile, all for the same map. */
  function RecordsFor(mapId: int, tiles: seq<Tile>): (rs: seq<CoverageRecord>)
    ensures |rs| == |tiles|
    ensures forall i | 0 <= i < |rs| :: rs[i].mapId == mapId && RecordTile(rs[i]) == tiles[i]
  {
    seq(|tiles|, i requires 0 <= i < |tiles| => CoverageRecord(mapId, tiles[i].x, tiles[i].y))
  }

  /** Distinct tiles give records that never collide on the primary key. */
  lemma RecordsForKeysUnique(mapId: int, tiles: seq<Tile>)
    requires Distinct(tiles)
    ensures KeysUnique(RecordsFor(mapId, tiles))
  {
    var rs := RecordsFor(mapId, tiles);
    forall i, j | 0 <= i < j < |rs| ensures Key(rs[i]) != Key(rs[j]) {
      assert RecordTile(rs[i]) == tiles[i] != tiles[j] == RecordTile(rs[j]);
    }
  }

  /** A record is among those built for mapId iff it carries mapId and its tile is listed. */
  lemma RecordsForMembers(mapId: int, tiles: seq<Tile>, r: CoverageRecord)
    ensures r in RecordsFor(mapId, tiles) <==> r.mapId == mapId && RecordTile(r) in tiles
  {
    var rs := RecordsFor(mapId, tiles);
    if r.mapId == mapId && RecordTile(r) in tiles {
      var i :| 0 <= i < |tiles| && tiles[i] == RecordTile(r);
      assert rs[i] == r;
    }
  }
}
