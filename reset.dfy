/** mapcat.toolkit.reset: select processing-status entries by optional filters, then
    delete them or set them all to one status. */
module Reset {
  import opened Common
  import opened Catalog

  /** VALID_STATUSES, the only values --status accepts. */
  const ValidStatuses: seq<string> := ["failed", "completed", "permafail"]

  /** argparse with choices=VALID_STATUSES: any other value is refused. */
  function StatusChoice(arg: string): (r: Result<string>)
    ensures r.Ok? <==> arg == "failed" || arg == "completed" || arg == "permafail"
    ensures r.Ok? ==> r.value == arg
  {
    if arg in ValidStatuses then Ok(arg)
    else Err(ValueError("argument -s/--status: invalid choice: '" + arg + "' (choose from 'failed', 'completed', 'permafail')"))
  }

  /** The parsed arguments. A map-id filter is given as a possibly empty list. */
  datatype ResetArgs = ResetArgs(
    status: Option<string>,
    mapIds: Option<seq<int>>,
    startTime: Option<real>,
    endTime: Option<real>,
    fromStatus: Option<string>)

  /** One WHERE clause of the select statement. */
  datatype Clause =
    | MapIdIn(ids: seq<int>)
    | CtimeAtLeast(start: real)
    | CtimeAtMost(end: real)
    | StatusIs(status: string)

  /** select(TimeDomainProcessingTable), possibly joined with the depth-1 maps on map_id,
      with its WHERE clauses. */
  datatype Statement = Statement(joined: bool, clauses: seq<Clause>)

  predicate Holds(c: Clause, e: ProcessingEntry, maps: map<int, DepthOneMap>)
  {
    match c
    case MapIdIn(ids) => e.mapId in ids
    case CtimeAtLeast(start) => e.mapId in maps && maps[e.mapId].ctime >= start
    case CtimeAtMost(end) => e.mapId in maps && maps[e.mapId].ctime <= end
    case StatusIs(s) => e.processingStatus == s
  }

  /** The rows the statement returns: an inner join drops entries without a map, and
      every clause must hold. */
  predicate Matches(stmt: Statement, e: ProcessingEntry, maps: map<int, DepthOneMap>)
  {
    (stmt.joined ==> e.mapId in maps) && forall i | 0 <= i < |stmt.clauses| :: Holds(stmt.clauses[i], e, maps)
  }

  /** --map-id: applied only when the list is non-empty (`if args.map_id:`). */
  predicate MapFilter(args: ResetArgs, e: ProcessingEntry)
  {
    args.mapIds.Some? && |args.mapIds.value| > 0 ==> e.mapId in args.mapIds.value
  }

  /** With either time bound the entries are inner-joined with their maps. */
  predicate JoinFilter(args: ResetArgs, e: ProcessingEntry, maps: map<int, DepthOneMap>)
  {
    args.startTime.Some? || args.endTime.Some? ==> e.mapId in maps
  }

  /** --start-time, inclusive. */
  predicate StartFilter(args: ResetArgs, e: ProcessingEntry, maps: map<int, DepthOneMap>)
  {
    args.startTime.Some? ==> e.mapId in maps && maps[e.mapId].ctime >= args.startTime.value
  }

  /** --end-time, inclusive. */
  predicate EndFilter(args: ResetArgs, e: ProcessingEntry, maps: map<int, DepthOneMap>)
  {
    args.endTime.Some? ==> e.mapId in maps && maps[e.mapId].ctime <= args.endTime.value
  }

  /** --from-status. */
  predicate StatusFilter(args: ResetArgs, e: ProcessingEntry)
  {
    args.fromStatus.Some? ==> e.processingStatus == args.fromStatus.value
  }

  /** The documented selection: every supplied filter holds. */
  predicate Selected(args: ResetArgs, e: ProcessingEntry, maps: map<int, DepthOneMap>)
  {
    && MapFilter(args, e)
    && JoinFilter(args, e, maps)
    && StartFilter(args, e, maps)
    && EndFilter(args, e, maps)
    && StatusFilter(args, e)
  }

  lemma MatchesWith(stmt: Statement, c: Clause, e: ProcessingEntry, maps: map<int, DepthOneMap>)
    ensures Matches(stmt.(clauses := stmt.clauses + [c]), e, maps) <==> Matches(stmt, e, maps) && Holds(c, e, maps)
  {
    var cs := stmt.clauses + [c];
    assert cs[|stmt.clauses|] == c;
    assert forall i | 0 <= i < |stmt.clauses| :: cs[i] == stmt.clauses[i];
  }

  /** Adds one WHERE clause. */
  function Where(stmt: Statement, c: Clause): (r: Statement)
    ensures forall e, maps :: Matches(r, e, maps) <==> Matches(stmt, e, maps) && Holds(c, e, maps)
  {
    var r := stmt.(clauses := stmt.clauses + [c]);
    assert forall e, maps :: Matches(r, e, maps) <==> Matches(stmt, e, maps) && Holds(c, e, maps) by {
      forall e, maps {
        MatchesWith(stmt, c, e, maps);
      }
    }
    r
  }

  /** Joins the depth-1 maps on map_id. */
  function InnerJoin(stmt: Statement): (r: Statement)
    ensures forall e, maps :: Matches(r, e, maps) <==> Matches(stmt, e, maps) && e.mapId in maps
  {
    stmt.(joined := true)
  }

  /** core, first half: the statement is rebuilt clause by clause from the arguments;
      it returns exactly the selected entries. */
  method BuildStatement(args: ResetArgs) returns (stmt: Statement)
    ensures forall e, maps :: Matches(stmt, e, maps) <==> Selected(args, e, maps)
  {
    stmt := Statement(false, []);
    if args.mapIds.Some? && |args.mapIds.value| > 0 {
      stmt := Where(stmt, MapIdIn(args.mapIds.value));
    }
    assert forall e, maps :: Matches(stmt, e, maps) <==> MapFilter(args, e);
    if args.startTime.Some? || args.endTime.Some? {
      stmt := InnerJoin(stmt);
      if args.startTime.Some? {
        stmt := Where(stmt, CtimeAtLeast(args.startTime.value));
      }
      if args.endTime.Some? {
        stmt := Where(stmt, CtimeAtMost(args.endTime.value));
      }
    }
    assert forall e, maps :: Matches(stmt, e, maps) <==>
      MapFilter(args, e) && JoinFilter(args, e, maps) && StartFilter(args, e, maps) && EndFilter(args, e, maps);
    if args.fromStatus.Some? {
      stmt := Where(stmt, StatusIs(args.fromStatus.value));
    }
  }

  /** The table after core: the selected entries deleted, or given the new status. */
  function ResetRows(args: ResetArgs, rows: map<int, ProcessingEntry>, maps: map<int, DepthOneMap>): map<int, ProcessingEntry>
  {
    if args.status.None? then
      map k | k in rows && !Selected(args, rows[k], maps) :: rows[k]
    else
      map k | k in rows :: if Selected(args, rows[k], maps) then rows[k].(processingStatus := args.status.value) else rows[k]
  }

  /** Entries that are not selected stay, unchanged. */
  lemma UnselectedUnchanged(args: ResetArgs, rows: map<int, ProcessingEntry>, maps: map<int, DepthOneMap>)
    ensures forall k | k in rows && !Selected(args, rows[k], maps) ::
      k in ResetRows(args, rows, maps) && ResetRows(args, rows, maps)[k] == rows[k]
  {
  }

  /** Without a target status the selected entries are gone and nothing else is. */
  lemma DeleteRemovesExactlySelected(args: ResetArgs, rows: map<int, ProcessingEntry>, maps: map<int, DepthOneMap>)
    requires args.status.None?
    ensures forall k :: k in ResetRows(args, rows, maps) <==> k in rows && !Selected(args, rows[k], maps)
  {
  }

  /** With a target status every selected entry has it, and keeps its id, map and times. */
  lemma SetStatusChangesOnlyStatus(args: ResetArgs, rows: map<int, ProcessingEntry>, maps: map<int, DepthOneMap>)
    requires args.status.Some?
    ensures ResetRows(args, rows, maps).Keys == rows.Keys
    ensures forall k | k in rows && Selected(args, rows[k], maps) ::
      ResetRows(args, rows, maps)[k] == rows[k].(processingStatus := args.status.value)
  {
  }

  /** With no filters every entry is selected: all are deleted, or all get the status. */
  lemma NoFiltersSelectsAll(args: ResetArgs, rows: map<int, ProcessingEntry>, maps: map<int, DepthOneMap>)
    requires args.mapIds.None? && args.startTime.None? && args.endTime.None? && args.fromStatus.None?
    ensures args.status.None? ==> ResetRows(args, rows, maps) == map[]
    ensures args.status.Some? ==> forall k | k in rows ::
      ResetRows(args, rows, maps)[k].processingStatus == args.status.value
  {
    forall k | k in rows ensures Selected(args, rows[k], maps) {
    }
    if args.status.None? {
      assert forall k :: k !in ResetRows(args, rows, maps);
    }
  }

  /** An empty map-id list selects what no list selects. */
  lemma EmptyMapIdListFiltersNothing(args: ResetArgs, e: ProcessingEntry, maps: map<int, DepthOneMap>)
    requires args.mapIds == Some([])
    ensures Selected(args, e, maps) <==> Selected(args.(mapIds := None), e, maps)
  {
  }

  /** A map whose ctime equals both bounds is inside the range. */
  lemma BoundsAreInclusive(e: ProcessingEntry, m: DepthOneMap, maps: map<int, DepthOneMap>)
    requires e.mapId in maps && maps[e.mapId] == m
    ensures Selected(ResetArgs(None, None, Some(m.ctime), Some(m.ctime), None), e, maps)
  {
  }

  /** Running core twice with the same arguments leaves what running it once left. */
  lemma ResetIdempotent(args: ResetArgs, rows: map<int, ProcessingEntry>, maps: map<int, DepthOneMap>)
    ensures ResetRows(args, ResetRows(args, rows, maps), maps) == ResetRows(args, rows, maps)
  {
    var once := ResetRows(args, rows, maps);
    var twice := ResetRows(args, once, maps);
    if args.status.None? {
      assert twice.Keys == once.Keys;
    } else {
      forall k | k in once ensures twice[k] == once[k] {
        if Selected(args, rows[k], maps) {
          var e := rows[k].(processingStatus := args.status.value);
          assert once[k] == e;
          if Selected(args, e, maps) {
            assert twice[k] == e.(processingStatus := args.status.value);
          }
        }
      }
      assert twice.Keys == once.Keys;
    }
  }

  /** The delete loop of core: each returned entry is deleted, the rest stay unchanged. */
  method DeleteEntries(table: map<int, ProcessingEntry>, entries: set<int>)
    returns (t: map<int, ProcessingEntry>)
    ensures t.Keys == table.Keys - entries
    ensures forall k | k in t :: t[k] == table[k]
  {
    t := table;
    var todo := entries;
    while todo != {}
      invariant t.Keys == table.Keys - (entries - todo)
      invariant forall k | k in t :: t[k] == table[k]
      decreases todo
    {
      NonEmptyHasMember(todo);
      var k :| k in todo;
      t := t - {k};
      todo := todo - {k};
    }
  }

  /** The status loop of core: each returned entry gets the new status and keeps every
      other column; the rest stay unchanged. */
  method SetStatus(table: map<int, ProcessingEntry>, entries: set<int>, status: string)
    returns (t: map<int, ProcessingEntry>)
    ensures t.Keys == table.Keys
    ensures forall k | k in t ::
      t[k] == if k in entries then table[k].(processingStatus := status) else table[k]
  {
    t := table;
    var todo := entries;
    while todo != {}
      invariant todo <= entries
      invariant t.Keys == table.Keys
      invariant forall k | k in t ::
        t[k] == if k in entries - todo then table[k].(processingStatus := status) else table[k]
      decreases todo
    {
      NonEmptyHasMember(todo);
      var k :| k in todo;
      if k in t {
        t := t[k := t[k].(processingStatus := status)];
      }
      todo := todo - {k};
    }
  }

  /** The time_domain_processing table, keyed by processing_status_id. */
  class ProcessingTable {
    var rows: map<int, ProcessingEntry>

    ghost predicate Consistent()
      reads this
    {
      forall k | k in rows :: rows[k].id == k
    }

    constructor (rows0: map<int, ProcessingEntry>)
      requires forall k | k in rows0 :: rows0[k].id == k
      ensures Consistent() && rows == rows0
    {
      rows := rows0;
    }

    /** core(session, args): run the statement, then delete every returned entry or set
        its status, and commit. */
    method Reset(args: ResetArgs, maps: map<int, DepthOneMap>)
      requires Consistent()
      modifies this
      ensures Consistent()
      ensures rows == ResetRows(args, old(rows), maps)
    {
      var stmt := BuildStatement(args);
      var entries := set k | k in rows && Matches(stmt, rows[k], maps);
      assert forall k | k in rows :: k in entries <==> Selected(args, rows[k], maps);
      var table;
      if args.status.None? {
        table := DeleteEntries(rows, entries);
      } else {
        table := SetStatus(rows, entries, args.status.value);
      }
      ghost var want := ResetRows(args, old(rows), maps);
      assert table.Keys == want.Keys;
      assert forall k | k in table :: table[k] == want[k];
      rows := table;
    }
  }
}
