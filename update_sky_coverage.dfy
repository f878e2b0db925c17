/** mapcat.toolkit.update_sky_coverage: tile the time map of every depth-1 map that has
    no coverage rows yet and store one coverage record per tile. */
module UpdateSkyCoverage {
  import opened Common
  import opened SkyCoverage
  import opened Tiling
  import opened Catalog
  import opened Paths
  import DatabaseTools

  /** resolve_tmap: depth_one_parent / mean_time_path. A missing path is a TypeError of
      the `/` operator; a relative stored path lands below the parent, an absolute one
      replaces it. */
  function ResolveTmap(parent: Path, d1: DepthOneMap): (r: Result<Path>)
    requires Paths.Valid(parent)
    ensures r.Err? <==> d1.meanTimePath.None?
    ensures r.Err? ==> r.error.TypeError?
    ensures r.Ok? ==> Paths.Valid(r.value)
    ensures r.Ok? && !Parse(d1.meanTimePath.value).absolute ==>
      RelativeTo(r.value, parent) == Ok(Parse(d1.meanTimePath.value))
    ensures r.Ok? && Parse(d1.meanTimePath.value).absolute ==> r.value == Parse(d1.meanTimePath.value)
  {
    match d1.meanTimePath
    case None => Err(TypeError("unsupported operand type(s) for /: 'PosixPath' and 'NoneType'"))
    case Some(p) =>
      if !Parse(p).absolute then RelativeToJoin(parent, Parse(p)); Ok(Join(parent, Parse(p)))
      else Ok(Join(parent, Parse(p)))
  }

  /** get_sky_coverage(tmap): the loops of the explicit-box tiler run on the map's own
      box, tmap.box(). */
  method GetSkyCoverage(tmap: TimeMap) returns (tiles: seq<Tile>)
    ensures tiles == CoverageOf(tmap.box, tmap.anyNonZero)
  {
    tiles := DatabaseTools.GetSkyCoverage(tmap.box, tmap);
  }

  /** The tiles coverage_from_depthone computes for one map, or the error it raises:
      the TypeError of resolve_tmap, or the read failure of the resolved path. */
  function TilesFor(parent: Path, readMap: string -> Option<TimeMap>, d1: DepthOneMap): Result<seq<Tile>>
    requires Paths.Valid(parent)
  {
    var path :- ResolveTmap(parent, d1);
    match readMap(Str(path))
    case None => Err(IOError(Str(path)))
    case Some(tmap) => Ok(CoverageOf(tmap.box, tmap.anyNonZero))
  }

  /** coverage_from_depthone(d1table): resolve the path, read the raster, tile it and
      build one record per tile carrying the map's map_id. */
  method CoverageFromDepthOne(parent: Path, d1: DepthOneMap, readMap: string -> Option<TimeMap>)
    returns (r: Result<seq<CoverageRecord>>)
    requires Paths.Valid(parent)
    ensures r.Ok? <==> TilesFor(parent, readMap, d1).Ok?
    ensures r.Err? ==> r.error == TilesFor(parent, readMap, d1).error
    ensures r.Ok? ==> r.value == RecordsFor(d1.mapId, TilesFor(parent, readMap, d1).value)
  {
    var path := ResolveTmap(parent, d1);
    if path.Err? {
      return Err(path.error);
    }
    var loaded := readMap(Str(path.value));
    if loaded.None? {
      return Err(IOError(Str(path.value)));
    }
    var tiles := GetSkyCoverage(loaded.value);
    r := Ok(RecordsFor(d1.mapId, tiles));
  }

  /** The records one map receives: none when its tiling fails. */
  function RecordSet(parent: Path, readMap: string -> Option<TimeMap>, d1: DepthOneMap): set<CoverageRecord>
    requires Paths.Valid(parent)
  {
    match TilesFor(parent, readMap, d1)
    case Ok(ts) => set r | r in RecordsFor(d1.mapId, ts)
    case Err(_) => {}
  }

  /** The maps the outer join with the IS NULL filter selects: those with no coverage row. */
  function Uncovered(maps: map<int, DepthOneMap>, coverage: set<CoverageRecord>): set<int>
  {
    set k | k in maps && forall r | r in coverage :: r.mapId != k
  }

  /** The records staged for the maps ids. */
  function Added(parent: Path, readMap: string -> Option<TimeMap>, maps: map<int, DepthOneMap>, ids: set<int>): set<CoverageRecord>
    requires Paths.Valid(parent)
  {
    set k, r | k in ids && k in maps && r in RecordSet(parent, readMap, maps[k]) :: r
  }

  lemma AddedStep(parent: Path, readMap: string -> Option<TimeMap>, maps: map<int, DepthOneMap>, ids: set<int>, k: int)
    requires Paths.Valid(parent) && k in maps
    ensures Added(parent, readMap, maps, ids + {k}) ==
      Added(parent, readMap, maps, ids) + RecordSet(parent, readMap, maps[k])
  {
  }

  /** Each key of maps names the map stored under it. */
  predicate KeyedById(maps: map<int, DepthOneMap>)
  {
    forall k | k in maps :: maps[k].mapId == k
  }

  /** A staged record belongs to one of the maps it was staged for. */
  lemma AddedBelongsToIds(parent: Path, readMap: string -> Option<TimeMap>, maps: map<int, DepthOneMap>, ids: set<int>)
    requires Paths.Valid(parent) && KeyedById(maps)
    ensures forall r | r in Added(parent, readMap, maps, ids) :: r.mapId in ids && r.mapId in maps
  {
    forall r | r in Added(parent, readMap, maps, ids) ensures r.mapId in ids && r.mapId in maps {
      var k :| k in ids && k in maps && r in RecordSet(parent, readMap, maps[k]);
      var ts := TilesFor(parent, readMap, maps[k]).value;
      RecordsForMembers(maps[k].mapId, ts, r);
    }
  }

  /** No staged record is already stored, so the pass never collides on the key. */
  lemma AddedIsFresh(parent: Path, readMap: string -> Option<TimeMap>, maps: map<int, DepthOneMap>, coverage: set<CoverageRecord>)
    requires Paths.Valid(parent) && KeyedById(maps)
    ensures Added(parent, readMap, maps, Uncovered(maps, coverage)) * coverage == {}
  {
    AddedBelongsToIds(parent, readMap, maps, Uncovered(maps, coverage));
  }

  /** A map that already had coverage rows keeps exactly those rows. */
  lemma CoveredMapsUntouched(parent: Path, readMap: string -> Option<TimeMap>, maps: map<int, DepthOneMap>,
                             coverage: set<CoverageRecord>, k: int)
    requires Paths.Valid(parent) && KeyedById(maps)
    requires k !in Uncovered(maps, coverage)
    ensures forall r: CoverageRecord | r.mapId == k ::
      r in coverage + Added(parent, readMap, maps, Uncovered(maps, coverage)) <==> r in coverage
  {
    AddedBelongsToIds(parent, readMap, maps, Uncovered(maps, coverage));
  }

  /** A map without rows whose raster reads ends up with exactly one row per returned tile. */
  lemma UncoveredMapGetsItsTiles(parent: Path, readMap: string -> Option<TimeMap>, maps: map<int, DepthOneMap>,
                                 coverage: set<CoverageRecord>, k: int)
    requires Paths.Valid(parent) && KeyedById(maps)
    requires k in Uncovered(maps, coverage) && TilesFor(parent, readMap, maps[k]).Ok?
    ensures forall t: Tile ::
      CoverageRecord(k, t.x, t.y) in coverage + Added(parent, readMap, maps, Uncovered(maps, coverage)) <==>
      t in TilesFor(parent, readMap, maps[k]).value
  {
    var u := Uncovered(maps, coverage);
    var ts := TilesFor(parent, readMap, maps[k]).value;
    AddedBelongsToIds(parent, readMap, maps, u);
    assert maps[k].mapId == k;
    forall t: Tile ensures CoverageRecord(k, t.x, t.y) in coverage + Added(parent, readMap, maps, u) <==> t in ts {
      var r := CoverageRecord(k, t.x, t.y);
      RecordsForMembers(k, ts, r);
      assert r !in coverage;
      if t in ts {
        assert r in RecordSet(parent, readMap, maps[k]);
      }
      if r in Added(parent, readMap, maps, u) {
        var j :| j in u && j in maps && r in RecordSet(parent, readMap, maps[j]);
        RecordsForMembers(maps[j].mapId, TilesFor(parent, readMap, maps[j]).value, r);
      }
    }
  }

  /** After a pass, a map is still without rows iff it had none before and its tiling
      returned no tile. */
  lemma StillUncovered(parent: Path, readMap: string -> Option<TimeMap>, maps: map<int, DepthOneMap>,
                       coverage: set<CoverageRecord>, k: int)
    requires Paths.Valid(parent) && KeyedById(maps) && k in maps
    requires k in Uncovered(maps, coverage) ==> TilesFor(parent, readMap, maps[k]).Ok?
    ensures var after := coverage + Added(parent, readMap, maps, Uncovered(maps, coverage));
      k in Uncovered(maps, after) <==>
        k in Uncovered(maps, coverage) && TilesFor(parent, readMap, maps[k]).value == []
  {
    var u := Uncovered(maps, coverage);
    var after := coverage + Added(parent, readMap, maps, u);
    if k in u {
      UncoveredMapGetsItsTiles(parent, readMap, maps, coverage, k);
      var ts := TilesFor(parent, readMap, maps[k]).value;
      if ts != [] {
        assert CoverageRecord(k, ts[0].x, ts[0].y) in after;
      } else {
        forall r | r in after ensures r.mapId != k {
          var t := Tile(r.x, r.y);
          assert r.mapId == k ==> r == CoverageRecord(k, t.x, t.y);
        }
      }
    } else {
      var r :| r in coverage && r.mapId == k;
      assert r in after;
    }
  }

  /** After a pass in which every map tiled, the maps still without rows are exactly those
      that received no tile; running the pass again adds nothing. */
  lemma RerunAddsNothing(parent: Path, readMap: string -> Option<TimeMap>, maps: map<int, DepthOneMap>,
                         coverage: set<CoverageRecord>)
    requires Paths.Valid(parent) && KeyedById(maps)
    requires forall k | k in Uncovered(maps, coverage) :: TilesFor(parent, readMap, maps[k]).Ok?
    ensures var after := coverage + Added(parent, readMap, maps, Uncovered(maps, coverage));
      && Uncovered(maps, after) ==
           (set k | k in Uncovered(maps, coverage) && TilesFor(parent, readMap, maps[k]).value == [])
      && Added(parent, readMap, maps, Uncovered(maps, after)) == {}
  {
    var u := Uncovered(maps, coverage);
    var after := coverage + Added(parent, readMap, maps, u);
    var empty := set k | k in u && TilesFor(parent, readMap, maps[k]).value == [];
    forall k | k in maps ensures k in Uncovered(maps, after) <==> k in empty {
      StillUncovered(parent, readMap, maps, coverage, k);
    }
    forall k | k in Uncovered(maps, after) ensures RecordSet(parent, readMap, maps[k]) == {} {
      assert k in empty;
    }
  }

  /** The catalog's maps and coverage rows, as the reconciler sees them. */
  class CoverageStore {
    var maps: map<int, DepthOneMap>
    var coverage: set<CoverageRecord>

    /** Maps are keyed by map_id, and every coverage row names a stored map. */
    ghost predicate Consistent()
      reads this
    {
      KeyedById(maps) && forall r | r in coverage :: r.mapId in maps
    }

    constructor (maps0: map<int, DepthOneMap>)
      requires KeyedById(maps0)
      ensures Consistent() && maps == maps0 && coverage == {}
    {
      maps := maps0;
      coverage := {};
    }

    /** core(session): every map without coverage rows is tiled and its records staged;
        one commit at the end stores them all. Any exception leaves the session without
        a commit, so nothing is stored. */
    method Core(parent: Path, readMap: string -> Option<TimeMap>) returns (r: Result<()>)
      requires Paths.Valid(parent) && Consistent()
      modifies this
      ensures Consistent() && maps == old(maps)
      ensures r.Ok? <==>
        forall k | k in Uncovered(old(maps), old(coverage)) :: TilesFor(parent, readMap, old(maps)[k]).Ok?
      ensures r.Err? ==> coverage == old(coverage)
      ensures r.Err? ==> exists k | k in Uncovered(old(maps), old(coverage)) ::
        TilesFor(parent, readMap, old(maps)[k]) == Err(r.error)
      ensures r.Ok? ==>
        coverage == old(coverage) + Added(parent, readMap, old(maps), Uncovered(old(maps), old(coverage)))
    {
      var todo0 := Uncovered(maps, coverage);
      var todo := todo0;
      var staged: set<CoverageRecord> := {};
      while todo != {}
        invariant maps == old(maps) && coverage == old(coverage)
        invariant todo <= todo0
        invariant forall k | k in todo0 - todo :: TilesFor(parent, readMap, maps[k]).Ok?
        invariant staged == Added(parent, readMap, maps, todo0 - todo)
        decreases todo
      {
        NonEmptyHasMember(todo);
        var k :| k in todo;
        var recs := CoverageFromDepthOne(parent, maps[k], readMap);
        if recs.Err? {
          return Err(recs.error);
        }
        AddedStep(parent, readMap, maps, todo0 - todo, k);
        assert todo0 - (todo - {k}) == (todo0 - todo) + {k};
        staged := staged + (set rec | rec in recs.value);
        todo := todo - {k};
      }
      assert todo0 - todo == todo0;
      AddedBelongsToIds(parent, readMap, maps, todo0);
      coverage := coverage + staged;
      r := Ok(());
    }

    /** Deleting a map deletes its coverage rows (ondelete CASCADE on map_id). */
    method DeleteMap(id: int)
      requires Consistent()
      modifies this
      ensures Consistent()
      ensures maps == old(maps) - {id}
      ensures coverage == set r | r in old(coverage) && r.mapId != id
    {
      maps := maps - {id};
      coverage := set r | r in coverage && r.mapId != id;
    }
  }
}
