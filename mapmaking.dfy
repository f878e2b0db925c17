/** mapcat.toolkit.mapmaking: find the depth-1 maps that used an observation, and split a
    list of observations into those with maps and those without. */
module Mapmaking {
  import opened Common
  import opened Catalog

  function NoTodsError(obsId: string): Error
  {
    ValueError("No TODs with obs ID " + obsId + " found.")
  }

  /** maps_containing_obs: the map list of the first TOD row with this obs_id, or
      ValueError when no row has it. */
  function MapsContainingObs(obsId: string, tods: seq<TodRow>): (r: Result<seq<int>>)
    ensures r.Err? <==> forall i | 0 <= i < |tods| :: tods[i].obsId != obsId
    ensures r.Err? ==> r.error == NoTodsError(obsId)
    ensures r.Ok? ==> exists i | 0 <= i < |tods| ::
      && tods[i].obsId == obsId
      && r.value == tods[i].maps
      && forall j | 0 <= j < i :: tods[j].obsId != obsId
  {
    if tods == [] then Err(NoTodsError(obsId))
    else if tods[0].obsId == obsId then Ok(tods[0].maps)
    else
      var r := MapsContainingObs(obsId, tods[1..]);
      assert r.Ok? ==> exists i | 0 <= i < |tods| ::
        tods[i].obsId == obsId && r.value == tods[i].maps && forall j | 0 <= j < i :: tods[j].obsId != obsId
      by {
        if r.Ok? {
          var i :| 0 <= i < |tods[1..]| && tods[1..][i].obsId == obsId && r.value == tods[1..][i].maps
            && forall j | 0 <= j < i :: tods[1..][j].obsId != obsId;
          assert tods[i + 1] == tods[1..][i];
          assert forall j | 1 <= j < i + 1 :: tods[j] == tods[1..][j - 1];
        }
      }
      assert r.Err? ==> forall i | 0 <= i < |tods| :: tods[i].obsId != obsId by {
        assert forall i | 1 <= i < |tods| :: tods[i] == tods[1..][i - 1];
      }
      r
  }

  /** An obs_id found with no linked map. */
  predicate HasNoMaps(obsId: string, tods: seq<TodRow>)
  {
    MapsContainingObs(obsId, tods) == Ok([])
  }

  /** The no-map list: the obs_ids found with no linked map, in input order. */
  function NoMapObs(obsIds: seq<string>, tods: seq<TodRow>): seq<string>
  {
    if obsIds == [] then []
    else
      var last := obsIds[|obsIds| - 1];
      NoMapObs(obsIds[..|obsIds| - 1], tods) + (if HasNoMaps(last, tods) then [last] else [])
  }

  /** An obs_id is in the no-map list iff it is in the input and has no map. */
  lemma {:induction false} NoMapObsMembers(obsIds: seq<string>, tods: seq<TodRow>)
    ensures forall o :: o in NoMapObs(obsIds, tods) <==> o in obsIds && HasNoMaps(o, tods)
  {
    if obsIds != [] {
      var pre := obsIds[..|obsIds| - 1];
      NoMapObsMembers(pre, tods);
      assert obsIds == pre + [obsIds[|obsIds| - 1]];
    }
  }

  /** The first obs_id that is not found, if any. */
  function FirstUnknown(obsIds: seq<string>, tods: seq<TodRow>): (i: nat)
    ensures i <= |obsIds|
    ensures forall j | 0 <= j < i :: MapsContainingObs(obsIds[j], tods).Ok?
    ensures i < |obsIds| ==> MapsContainingObs(obsIds[i], tods).Err?
    decreases |obsIds|
  {
    if obsIds == [] || MapsContainingObs(obsIds[0], tods).Err? then 0
    else
      var i := FirstUnknown(obsIds[1..], tods);
      assert forall j | 1 <= j < i + 1 :: obsIds[j] == obsIds[1..][j - 1];
      i + 1
  }

  /** An obs_id found with at least one linked map. */
  predicate HasMaps(obsId: string, tods: seq<TodRow>)
  {
    MapsContainingObs(obsId, tods).Ok? && MapsContainingObs(obsId, tods).value != []
  }

  /** The dictionary: each obs_id with maps, mapped to its map list. */
  function MapDict(obsIds: seq<string>, tods: seq<TodRow>): map<string, seq<int>>
  {
    if obsIds == [] then map[]
    else
      var last := obsIds[|obsIds| - 1];
      var d := MapDict(obsIds[..|obsIds| - 1], tods);
      if HasMaps(last, tods) then d[last := MapsContainingObs(last, tods).value] else d
  }

  /** The keys are the input obs_ids that have maps; each holds its non-empty map list. */
  lemma {:induction false} MapDictEntries(obsIds: seq<string>, tods: seq<TodRow>)
    ensures forall o :: o in MapDict(obsIds, tods) <==> o in obsIds && HasMaps(o, tods)
    ensures forall o | o in MapDict(obsIds, tods) ::
      MapsContainingObs(o, tods) == Ok(MapDict(obsIds, tods)[o]) && MapDict(obsIds, tods)[o] != []
  {
    if obsIds != [] {
      var pre := obsIds[..|obsIds| - 1];
      MapDictEntries(pre, tods);
      assert obsIds == pre + [obsIds[|obsIds| - 1]];
    }
  }

  /** build_obslists: each obs_id either becomes a key mapped to its non-empty map list,
      or is appended to the no-map list. The first unknown obs_id aborts the whole call. */
  method BuildObslists(obsIds: seq<string>, tods: seq<TodRow>)
    returns (r: Result<(map<string, seq<int>>, seq<string>)>)
    ensures r.Ok? <==> FirstUnknown(obsIds, tods) == |obsIds|
    ensures r.Err? ==> r.error == NoTodsError(obsIds[FirstUnknown(obsIds, tods)])
    ensures r.Ok? ==> r.value.0 == MapDict(obsIds, tods)
    ensures r.Ok? ==> r.value.1 == NoMapObs(obsIds, tods)
  {
    var mapDict: map<string, seq<int>> := map[];
    var noMapList: seq<string> := [];
    for i := 0 to |obsIds|
      invariant i <= FirstUnknown(obsIds, tods)
      invariant mapDict == MapDict(obsIds[..i], tods)
      invariant noMapList == NoMapObs(obsIds[..i], tods)
    {
      var obsId := obsIds[i];
      var mapList := MapsContainingObs(obsId, tods);
      if mapList.Err? {
        return Err(mapList.error);
      }
      ghost var seen := obsIds[..i + 1];
      assert seen[..i] == obsIds[..i] && seen[i] == obsId;
      if |mapList.value| == 0 {
        noMapList := noMapList + [obsId];
      } else {
        mapDict := mapDict[obsId := mapList.value];
      }
    }
    assert obsIds[..|obsIds|] == obsIds;
    return Ok((mapDict, noMapList));
  }

  /** Every input obs_id lands in exactly one of the two outputs. */
  lemma ObslistsPartition(obsIds: seq<string>, tods: seq<TodRow>, o: string)
    requires FirstUnknown(obsIds, tods) == |obsIds| && o in obsIds
    ensures (o in MapDict(obsIds, tods)) != (o in NoMapObs(obsIds, tods))
  {
    NoMapObsMembers(obsIds, tods);
    MapDictEntries(obsIds, tods);
    var i :| 0 <= i < |obsIds| && obsIds[i] == o;
    assert MapsContainingObs(o, tods).Ok?;
  }

  /** The TOD rows of the package's own test: o2 is linked to maps 1 and 2, o4 to none. */
  function ExampleTods(): seq<TodRow>
  {
    [TodRow("o1", [1]), TodRow("o2", [1, 2]), TodRow("o3", [2]), TodRow("o4", [])]
  }

  /** An observation in two maps gets both, in link order, and one without maps gets none. */
  lemma ExampleLookups()
    ensures MapsContainingObs("o1", ExampleTods()) == Ok([1])
    ensures MapsContainingObs("o2", ExampleTods()) == Ok([1, 2])
    ensures MapsContainingObs("o3", ExampleTods()) == Ok([2])
    ensures MapsContainingObs("o4", ExampleTods()) == Ok([])
  {
    var t1, t2, t3 := ExampleSuffixes();
    assert "o1" != "o2" && "o1" != "o3" && "o1" != "o4";
    assert "o2" != "o3" && "o2" != "o4" && "o3" != "o4";
    SkipRow("o2", ExampleTods());
    SkipRow("o3", ExampleTods());
    SkipRow("o3", t1);
    SkipRow("o4", ExampleTods());
    SkipRow("o4", t1);
    SkipRow("o4", t2);
  }

  /** A first row with another obs_id does not change the lookup. */
  lemma SkipRow(obsId: string, tods: seq<TodRow>)
    requires tods != [] && tods[0].obsId != obsId
    ensures MapsContainingObs(obsId, tods) == MapsContainingObs(obsId, tods[1..])
  {
  }

  lemma ExampleSuffixes() returns (t1: seq<TodRow>, t2: seq<TodRow>, t3: seq<TodRow>)
    ensures ExampleTods()[0] == TodRow("o1", [1]) && t1 == ExampleTods()[1..]
    ensures t1 != [] && t1[0] == TodRow("o2", [1, 2]) && t2 == t1[1..]
    ensures t2 != [] && t2[0] == TodRow("o3", [2]) && t3 == t2[1..]
    ensures t3 != [] && t3[0] == TodRow("o4", [])
  {
    var tods := ExampleTods();
    t1 := tods[1..];
    t2 := t1[1..];
    t3 := t2[1..];
  }

  /** Appending one obs_id extends the no-map list by it exactly when it has no map. */
  lemma NoMapObsSnoc(pre: seq<string>, o: string, tods: seq<TodRow>)
    ensures NoMapObs(pre + [o], tods) == NoMapObs(pre, tods) + (if HasNoMaps(o, tods) then [o] else [])
  {
    assert (pre + [o])[..|pre|] == pre;
  }

  /** The observation with no map is the only entry of the no-map list. */
  lemma ExampleNoMapList()
    ensures NoMapObs(["o1", "o2", "o3", "o4"], ExampleTods()) == ["o4"]
  {
    var tods := ExampleTods();
    ExampleLookups();
    var ids1, ids2, ids3, ids4 := ExamplePrefixes();
    NoMapObsSnoc([], "o1", tods);
    NoMapObsSnoc(ids1, "o2", tods);
    NoMapObsSnoc(ids2, "o3", tods);
    NoMapObsSnoc(ids3, "o4", tods);
  }

  lemma ExamplePrefixes() returns (ids1: seq<string>, ids2: seq<string>, ids3: seq<string>, ids4: seq<string>)
    ensures ids1 == [] + ["o1"] == ["o1"]
    ensures ids2 == ids1 + ["o2"] == ["o1", "o2"]
    ensures ids3 == ids2 + ["o3"] == ["o1", "o2", "o3"]
    ensures ids4 == ids3 + ["o4"] == ["o1", "o2", "o3", "o4"]
  {
    ids1, ids2, ids3 := ["o1"], ["o1", "o2"], ["o1", "o2", "o3"];
    ids4 := ids3 + ["o4"];
    assert |ids4| == 4 && ids4[0] == "o1" && ids4[1] == "o2" && ids4[2] == "o3" && ids4[3] == "o4";
  }
}
