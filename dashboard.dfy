/**
 * The audit panel's own state and the three handlers that change it or the
 * store: fetchData (load, derive the statistics, add configuration rows for
 * schema tables that have none), toggleAudit (local update after the RPC)
 * and handleRevert (compensating write, then mark the entry).
 */
module Dashboard {
  import opened AuditTypes
  import opened LogFilter
  import opened ConfigSync
  import opened AuditStore
  import opened Revert

  /** The component's state: loaded rows, statistics, filter controls and the error banner. */
  datatype Panel = Panel(
    tables: seq<TableAuditConfig>,
    changes: seq<AuditLogEntry>,
    stats: Stats,
    filters: Filters,
    error: Option<string>)

  /** The enabled-table counter agrees with the loaded configuration rows. */
  predicate InSync(p: Panel) {
    p.stats.enabledTables == EnabledCount(p.tables)
  }

  /** The table names the schema RPC returned; none when it failed. */
  function SchemaNames(schema: Option<seq<string>>): seq<string> {
    if schema.Some? then schema.value else []
  }

  /**
   * The insert loop of fetchData: one disabled configuration row for every
   * schema table missing from the configuration snapshot, in schema order.
   */
  method ReconcileConfig(db: Backend, schema: seq<string>, now: int) returns (added: nat)
    requires db.Valid()
    modifies db
    ensures db.Valid()
    ensures added == |MissingTables(old(db.config), schema)|
    ensures db.config == Reconciled(old(db.config), schema, old(db.nextConfigId), now)
    ensures db.nextConfigId == old(db.nextConfigId) + added
    ensures db.log == old(db.log) && db.tables == old(db.tables)
  {
    var missing := MissingTables(db.config, schema);
    ghost var start, firstId := db.config, db.nextConfigId;
    for i := 0 to |missing|
      invariant db.Valid()
      invariant db.config == start + NewConfigs(missing[..i], firstId, now)
      invariant db.nextConfigId == firstId + i
      invariant db.log == old(db.log) && db.tables == old(db.tables)
    {
      db.InsertConfig(missing[i], false, now);
      assert NewConfigs(missing[..i + 1], firstId, now)
        == NewConfigs(missing[..i], firstId, now) + [TableAuditConfig(firstId + i, missing[i], false, now)];
    }
    assert missing[..|missing|] == missing;
    added := |missing|;
  }

  /**
   * fetchData. A failed configuration or log select (`configFails`,
   * `logsFails`) throws into the catch block before anything is set, so the
   * panel and the store stay as they were. When rows were added it fetches
   * again; that second round finds nothing missing, so the final state is
   * read after the inserts.
   */
  method FetchData(db: Backend, p: Panel, schema: Option<seq<string>>, now: int, cutoff: int,
                   configFails: bool, logsFails: bool) returns (q: Panel)
    requires db.Valid()
    modifies db
    ensures db.Valid()
    ensures configFails || logsFails ==>
      q == p && db.config == old(db.config) && db.nextConfigId == old(db.nextConfigId)
    ensures !configFails && !logsFails ==>
      db.config == Reconciled(old(db.config), SchemaNames(schema), old(db.nextConfigId), now)
    ensures db.log == old(db.log) && db.tables == old(db.tables)
    ensures !configFails && !logsFails ==>
      && q == p.(tables := db.config, changes := db.log, stats := ComputeStats(db.config, db.log, schema, cutoff))
      && InSync(q) && UniqueIds(q.tables)
      && forall t :: t in SchemaNames(schema) ==> t in ConfigNames(q.tables)
  {
    if configFails || logsFails {
      return p;
    }
    var configData, logsData := db.config, db.log;
    q := p.(tables := configData, changes := logsData, stats := ComputeStats(configData, logsData, schema, cutoff));
    if schema.Some? {
      var added := ReconcileConfig(db, schema.value, now);
      if added > 0 {
        ghost var afterFirst, idAfterFirst := db.config, db.nextConfigId;
        configData, logsData := db.config, db.log;
        q := p.(tables := configData, changes := logsData, stats := ComputeStats(configData, logsData, schema, cutoff));
        ReconcileIdempotent(old(db.config), schema.value, old(db.nextConfigId), now);
        var again := ReconcileConfig(db, schema.value, now);
        assert NewConfigs([], idAfterFirst, now) == [];
        assert db.config == afterFirst;
      } else {
        assert NewConfigs([], old(db.nextConfigId), now) == [];
        assert db.config == old(db.config);
      }
    } else {
      assert NewConfigs([], old(db.nextConfigId), now) == [];
    }
    ReconciledCoversSchema(old(db.config), SchemaNames(schema), old(db.nextConfigId), now);
  }

  /**
   * toggleAudit after the RPC: on an error only the banner changes; on
   * success the row is updated and the counter adjusted.
   */
  function ToggleAudit(p: Panel, id: nat, currentState: bool, rpcError: Option<string>): (q: Panel)
    ensures q.changes == p.changes && q.filters == p.filters && |q.tables| == |p.tables|
    ensures q.stats.(enabledTables := 0) == p.stats.(enabledTables := 0)
    ensures rpcError.Some? ==> && q.tables == p.tables && q.stats == p.stats
                               && q.error == Some("Failed to toggle audit: " + rpcError.value)
    ensures rpcError.None? ==> q.error == None && q.stats.enabledTables != p.stats.enabledTables
  {
    if rpcError.Some? then
      p.(error := Some("Failed to toggle audit: " + rpcError.value))
    else
      p.(tables := ToggleLocal(p.tables, id, currentState),
         stats := p.stats.(enabledTables := AdjustEnabled(p.stats.enabledTables, currentState)),
         error := None)
  }

  /**
   * A toggle from the switch of row `k` (which passes that row's own flag)
   * keeps the counter in step with the rows, flips that row only (its other
   * fields stay), and leaves the log, the filters and the other statistics
   * alone; a failed RPC changes no row and no statistic.
   */
  lemma ToggleAuditSpec(p: Panel, id: nat, currentState: bool, rpcError: Option<string>, k: nat)
    requires InSync(p) && UniqueIds(p.tables)
    requires k < |p.tables| && p.tables[k].id == id && p.tables[k].auditEnabled == currentState
    ensures var q := ToggleAudit(p, id, currentState, rpcError);
      && InSync(q) && UniqueIds(q.tables)
      && q.changes == p.changes && q.filters == p.filters
      && |q.tables| == |p.tables|
      && q.stats.(enabledTables := 0) == p.stats.(enabledTables := 0)
      && (rpcError.Some? ==>
            && q.tables == p.tables && q.stats == p.stats
            && q.error == Some("Failed to toggle audit: " + rpcError.value))
      && (rpcError.None? ==>
            && q.error == None && q.tables[k] == p.tables[k].(auditEnabled := !currentState)
            && forall i :: 0 <= i < |p.tables| && i != k ==> q.tables[i] == p.tables[i])
  {
    if rpcError.None? {
      ToggleKeepsCountInSync(p.tables, id, currentState, k);
      var t := ToggleLocal(p.tables, id, currentState);
      forall i | 0 <= i < |p.tables| && i != k ensures t[i] == p.tables[i] {
        assert p.tables[i].id != p.tables[k].id;
      }
    }
  }

  /**
   * handleRevert. A failed compensating write, or a null old image, ends in
   * the catch block with nothing marked; otherwise the entry is marked
   * reverted (also when the operation was not recognised and nothing was written).
   */
  method HandleRevert(db: Backend, id: int, operation: string, oldData: Option<RowImage>, tableName: string, writeFails: bool)
    returns (marked: bool)
    modifies db
    ensures var plan := CompensatingWrite(operation, oldData, tableName);
      && marked == (plan.NoWrite? || (plan.Compensate? && tableName in old(db.tables) && !writeFails))
      && db.tables == (if marked && plan.Compensate? then ApplyWrite(old(db.tables), plan.w) else old(db.tables))
    ensures db.log == (if marked then MarkedReverted(old(db.log), id) else old(db.log))
    ensures db.config == old(db.config) && db.nextConfigId == old(db.nextConfigId)
  {
    var plan := CompensatingWrite(operation, oldData, tableName);
    if plan.Fails? {
      return false;
    }
    if plan.Compensate? {
      var ok := db.Write(plan.w, writeFails);
      if !ok {
        return false;
      }
    }
    db.MarkReverted(id);
    marked := true;
  }
}
