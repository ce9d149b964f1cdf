/**
 * The configuration side of the panel: the enabled-table count and the
 * other statistics fetchData derives, the schema tables that have no
 * configuration row yet (and the rows inserted for them), and the local
 * update toggleAudit makes after a successful toggle.
 */
module ConfigSync {
  import opened AuditTypes

  // ---------------------------------------------------------------------------
  // Counting

  /** `configData.filter((t) => t.audit_enabled).length` */
  function EnabledCount(configs: seq<TableAuditConfig>): (r: nat)
    ensures r <= |configs|
  {
    if configs == [] then 0
    else EnabledCount(configs[..|configs| - 1]) + (if configs[|configs| - 1].auditEnabled then 1 else 0)
  }

  /** The positions of the enabled rows. */
  function EnabledPositions(configs: seq<TableAuditConfig>): set<nat> {
    set i: nat | i < |configs| && configs[i].auditEnabled
  }

  /** The count is the number of rows whose flag is set. */
  lemma {:induction false} EnabledCountIsCardinality(configs: seq<TableAuditConfig>)
    ensures EnabledCount(configs) == |EnabledPositions(configs)|
  {
    if configs != [] {
      var n := |configs| - 1;
      var front := configs[..n];
      EnabledCountIsCardinality(front);
      if configs[n].auditEnabled {
        assert EnabledPositions(configs) == EnabledPositions(front) + {n};
        assert n !in EnabledPositions(front);
      } else {
        assert EnabledPositions(configs) == EnabledPositions(front);
      }
    }
  }

  lemma {:induction false} EnabledCountAppend(a: seq<TableAuditConfig>, b: seq<TableAuditConfig>)
    ensures EnabledCount(a + b) == EnabledCount(a) + EnabledCount(b)
    decreases |b|
  {
    if b == [] {
      assert a + b == a;
    } else {
      assert (a + b)[..|a + b| - 1] == a + b[..|b| - 1];
      EnabledCountAppend(a, b[..|b| - 1]);
    }
  }

  /** Log entries newer than `cutoff` (the "last 24 hours" window, with the clock given as a number). */
  function RecentCount(logs: seq<AuditLogEntry>, cutoff: int): (r: nat)
    ensures r <= |logs|
  {
    if logs == [] then 0
    else RecentCount(logs[..|logs| - 1], cutoff) + (if logs[|logs| - 1].timestamp > cutoff then 1 else 0)
  }

  /** The positions of the entries newer than `cutoff`. */
  function RecentPositions(logs: seq<AuditLogEntry>, cutoff: int): set<nat> {
    set i: nat | i < |logs| && logs[i].timestamp > cutoff
  }

  /** The recent count is the number of entries whose timestamp lies after the cutoff. */
  lemma {:induction false} RecentCountIsCardinality(logs: seq<AuditLogEntry>, cutoff: int)
    ensures RecentCount(logs, cutoff) == |RecentPositions(logs, cutoff)|
  {
    if logs != [] {
      var n := |logs| - 1;
      var front := logs[..n];
      RecentCountIsCardinality(front, cutoff);
      if logs[n].timestamp > cutoff {
        assert RecentPositions(logs, cutoff) == RecentPositions(front, cutoff) + {n};
        assert n !in RecentPositions(front, cutoff);
      } else {
        assert RecentPositions(logs, cutoff) == RecentPositions(front, cutoff);
      }
    }
  }

  datatype Stats = Stats(totalTables: nat, enabledTables: int, totalEvents: nat, recentEvents: nat)

  /**
   * The statistics fetchData computes. `schemaData?.length || configData?.length`
   * falls back to the number of configuration rows when the schema list is
   * missing or empty.
   */
  function ComputeStats(configs: seq<TableAuditConfig>, logs: seq<AuditLogEntry>, schema: Option<seq<string>>, cutoff: int)
    : (s: Stats)
    ensures 0 <= s.enabledTables <= |configs|
    ensures s.enabledTables == |EnabledPositions(configs)|
    ensures s.recentEvents <= s.totalEvents == |logs|
    ensures s.recentEvents == |RecentPositions(logs, cutoff)|
    ensures schema.Some? && |schema.value| > 0 ==> s.totalTables == |schema.value|
    ensures schema.None? || |schema.value| == 0 ==> s.totalTables == |configs|
  {
    EnabledCountIsCardinality(configs);
    RecentCountIsCardinality(logs, cutoff);
    Stats(
      if schema.Some? && |schema.value| > 0 then |schema.value| else |configs|,
      EnabledCount(configs),
      |logs|,
      RecentCount(logs, cutoff))
  }

  // ---------------------------------------------------------------------------
  // Reconciliation with the schema

  /** `new Set(configData.map((c) => c.table_name))` */
  function ConfigNames(configs: seq<TableAuditConfig>): set<string> {
    set c | c in configs :: c.tableName
  }

  /** `schemaData.filter((t) => !existingTables.has(t.table_name))` */
  function MissingTables(configs: seq<TableAuditConfig>, schema: seq<string>): (r: seq<string>)
    ensures IsSubsequence(r, schema)
    ensures forall t :: t in r <==> t in schema && t !in ConfigNames(configs)
    ensures r == [] <==> forall t :: t in schema ==> t in ConfigNames(configs)
    ensures forall t :: multiset(r)[t] == if t in ConfigNames(configs) then 0 else multiset(schema)[t]
  {
    if schema == [] then []
    else
      var rest := MissingTables(configs, schema[..|schema| - 1]);
      var t := schema[|schema| - 1];
      assert schema == schema[..|schema| - 1] + [t];
      assert multiset(schema) == multiset(schema[..|schema| - 1]) + multiset{t};
      if t !in ConfigNames(configs) then
        assert (rest + [t])[..|rest + [t]| - 1] == rest;
        rest + [t]
      else
        SubsequenceAppend(rest, schema[..|schema| - 1], t);
        rest
  }

  /**
   * The rows the insert loop adds, one per missing table, with auditing off.
   * Row ids are issued by the store from `firstId` on; `now` is the creation time.
   */
  function NewConfigs(names: seq<string>, firstId: nat, now: int): seq<TableAuditConfig> {
    seq(|names|, i requires 0 <= i < |names| => TableAuditConfig(firstId + i, names[i], false, now))
  }

  /** The configuration table after the insert loop. */
  function Reconciled(configs: seq<TableAuditConfig>, schema: seq<string>, firstId: nat, now: int)
    : seq<TableAuditConfig>
  {
    configs + NewConfigs(MissingTables(configs, schema), firstId, now)
  }

  lemma {:induction false} NewConfigsDisabled(names: seq<string>, firstId: nat, now: int)
    ensures EnabledCount(NewConfigs(names, firstId, now)) == 0
  {
    if names != [] {
      var n := |names| - 1;
      NewConfigsDisabled(names[..n], firstId, now);
      assert NewConfigs(names, firstId, now)[..n] == NewConfigs(names[..n], firstId, now);
    }
  }

  lemma NewConfigsNames(names: seq<string>, firstId: nat, now: int)
    ensures ConfigNames(NewConfigs(names, firstId, now)) == set t | t in names
  {
    var rows := NewConfigs(names, firstId, now);
    forall t | t in names ensures t in ConfigNames(rows) {
      var i :| 0 <= i < |names| && names[i] == t;
      assert rows[i].tableName == t;
    }
  }

  /** After reconciliation every schema table has a configuration row. */
  lemma ReconciledCoversSchema(configs: seq<TableAuditConfig>, schema: seq<string>, firstId: nat, now: int)
    ensures forall t :: t in schema ==> t in ConfigNames(Reconciled(configs, schema, firstId, now))
  {
    var missing := MissingTables(configs, schema);
    NewConfigsNames(missing, firstId, now);
    var all := Reconciled(configs, schema, firstId, now);
    forall t | t in schema ensures t in ConfigNames(all) {
      if t in ConfigNames(configs) {
        var c :| c in configs && c.tableName == t;
        assert c in all;
      } else {
        assert t in ConfigNames(NewConfigs(missing, firstId, now));
        var c :| c in NewConfigs(missing, firstId, now) && c.tableName == t;
        assert c in all;
      }
    }
  }

  /** The added rows are all disabled, so the enabled count does not change. */
  lemma ReconciledKeepsEnabledCount(configs: seq<TableAuditConfig>, schema: seq<string>, firstId: nat, now: int)
    ensures EnabledCount(Reconciled(configs, schema, firstId, now)) == EnabledCount(configs)
  {
    var added := NewConfigs(MissingTables(configs, schema), firstId, now);
    EnabledCountAppend(configs, added);
    NewConfigsDisabled(MissingTables(configs, schema), firstId, now);
  }

  /** A second pass over the same schema finds nothing missing: the re-fetch ends there. */
  lemma ReconcileIdempotent(configs: seq<TableAuditConfig>, schema: seq<string>, firstId: nat, now: int)
    ensures MissingTables(Reconciled(configs, schema, firstId, now), schema) == []
  {
    ReconciledCoversSchema(configs, schema, firstId, now);
  }

  /** At most one configuration row per table name. */
  predicate UniqueNames(configs: seq<TableAuditConfig>) {
    forall i, j :: 0 <= i < j < |configs| ==> configs[i].tableName != configs[j].tableName
  }

  /** A distinct schema list keeps the one-row-per-table invariant. */
  lemma ReconciledUniqueNames(configs: seq<TableAuditConfig>, schema: seq<string>, firstId: nat, now: int)
    requires UniqueNames(configs) && NoDuplicates(schema)
    ensures UniqueNames(Reconciled(configs, schema, firstId, now))
  {
    var missing := MissingTables(configs, schema);
    SubsequenceOfDistinct(missing, schema);
    var added := NewConfigs(missing, firstId, now);
    var all := configs + added;
    forall i, j | 0 <= i < j < |all| ensures all[i].tableName != all[j].tableName {
      if j >= |configs| {
        assert all[j] == added[j - |configs|];
        if i >= |configs| {
          assert all[i] == added[i - |configs|];
        } else {
          assert missing[j - |configs|] in missing;
          assert all[i] in configs;
        }
      }
    }
  }

  // ---------------------------------------------------------------------------
  // The local update after a successful toggle

  /** `tables.map(...)`: the row with the given id gets the flag `!currentState`. */
  function ToggleLocal(tables: seq<TableAuditConfig>, id: nat, currentState: bool): (r: seq<TableAuditConfig>)
    ensures |r| == |tables|
    ensures forall i :: 0 <= i < |tables| ==>
      && r[i].id == tables[i].id && r[i].tableName == tables[i].tableName && r[i].createdAt == tables[i].createdAt
      && r[i].auditEnabled == (if tables[i].id == id then !currentState else tables[i].auditEnabled)
  {
    seq(|tables|, i requires 0 <= i < |tables| =>
      if tables[i].id == id then tables[i].(auditEnabled := !currentState) else tables[i])
  }

  /** `prev.enabledTables + (currentState ? -1 : 1)`: one step, down when the switch was on. */
  function AdjustEnabled(count: int, currentState: bool): (r: int)
    ensures r == count - 1 || r == count + 1
    ensures r < count <==> currentState
  {
    count + (if currentState then -1 else 1)
  }

  predicate UniqueIds(configs: seq<TableAuditConfig>) {
    forall i, j :: 0 <= i < j < |configs| ==> configs[i].id != configs[j].id
  }

  /**
   * The counter stays in step: if it equalled the number of enabled rows
   * before and the row with the id exists with flag `currentState`, the
   * adjusted counter equals the number of enabled rows after the toggle.
   */
  lemma ToggleKeepsCountInSync(tables: seq<TableAuditConfig>, id: nat, currentState: bool, k: nat)
    requires UniqueIds(tables)
    requires k < |tables| && tables[k].id == id && tables[k].auditEnabled == currentState
    ensures EnabledCount(ToggleLocal(tables, id, currentState)) == AdjustEnabled(EnabledCount(tables), currentState)
  {
    var t := ToggleLocal(tables, id, currentState);
    assert t[..k] == tables[..k] by {
      forall i | 0 <= i < k ensures t[i] == tables[i] {
        assert tables[i].id != tables[k].id;
      }
    }
    assert t[k + 1..] == tables[k + 1..] by {
      forall i | k < i < |tables| ensures t[i] == tables[i] {
        assert tables[i].id != tables[k].id;
      }
    }
    EnabledCountSplit(tables, k);
    EnabledCountSplit(t, k);
  }

  lemma EnabledCountSplit(a: seq<TableAuditConfig>, k: nat)
    requires k < |a|
    ensures EnabledCount(a) == EnabledCount(a[..k]) + (if a[k].auditEnabled then 1 else 0) + EnabledCount(a[k + 1..])
  {
    assert a == (a[..k] + [a[k]]) + a[k + 1..];
    EnabledCountAppend(a[..k] + [a[k]], a[k + 1..]);
    EnabledCountAppend(a[..k], [a[k]]);
    assert [a[k]][..0] == [];
  }
}
