/**
 * An in-memory stand-in for the hosted database the panel talks to: the
 * `quickaudit_config` table, the append-only `audit_log`, and the user tables
 * that compensating writes go to. Each query the panel issues becomes one
 * state update on this store.
 */
module AuditStore {
  import opened AuditTypes
  import opened ConfigSync

  /** A write against a user table, filtered on its `id` column where it has a filter. */
  datatype Write =
    | DeleteWhereId(table: string, id: Option<Value>)
    | UpdateWhereId(table: string, image: RowImage, id: Option<Value>)
    | InsertRow(table: string, image: RowImage)

  /** `.eq("id", v)`; an undefined `v` matches no row. */
  predicate IdMatches(row: RowImage, id: Option<Value>) {
    id.Some? && Get(row, "id") == id
  }

  /** `.delete().eq("id", v)`: the rows that do not match, in their order. */
  function DeleteMatching(rows: seq<RowImage>, id: Option<Value>): (r: seq<RowImage>)
    ensures IsSubsequence(r, rows)
    ensures forall row :: row in r <==> row in rows && !IdMatches(row, id)
    ensures forall row :: multiset(r)[row] == if IdMatches(row, id) then 0 else multiset(rows)[row]
  {
    if rows == [] then []
    else
      var rest := DeleteMatching(rows[..|rows| - 1], id);
      var row := rows[|rows| - 1];
      assert rows == rows[..|rows| - 1] + [row];
      assert multiset(rows) == multiset(rows[..|rows| - 1]) + multiset{row};
      if IdMatches(row, id) then
        SubsequenceAppend(rest, rows[..|rows| - 1], row);
        rest
      else
        assert (rest + [row])[..|rest + [row]| - 1] == rest;
        rest + [row]
  }

  /** `.update(image).eq("id", v)`: the columns of `image` overwrite those of every matching row. */
  function UpdateMatching(rows: seq<RowImage>, image: RowImage, id: Option<Value>): (r: seq<RowImage>)
    ensures |r| == |rows|
    ensures forall i :: 0 <= i < |rows| && !IdMatches(rows[i], id) ==> r[i] == rows[i]
    ensures forall i, k :: 0 <= i < |rows| && IdMatches(rows[i], id) ==>
      Get(r[i], k) == if k in image then Some(image[k]) else Get(rows[i], k)
  {
    seq(|rows|, i requires 0 <= i < |rows| => if IdMatches(rows[i], id) then rows[i] + image else rows[i])
  }

  function ApplyToRows(rows: seq<RowImage>, w: Write): seq<RowImage> {
    match w
    case DeleteWhereId(_, id) => DeleteMatching(rows, id)
    case UpdateWhereId(_, image, id) => UpdateMatching(rows, image, id)
    case InsertRow(_, image) => rows + [image]
  }

  function ApplyWrite(tables: map<string, seq<RowImage>>, w: Write): (r: map<string, seq<RowImage>>)
    requires w.table in tables
    ensures r.Keys == tables.Keys
    ensures forall t :: t in tables && t != w.table ==> r[t] == tables[t]
  {
    tables[w.table := ApplyToRows(tables[w.table], w)]
  }

  /**
   * `.from("audit_log").update({ reverted: true }).eq("id", id)`: the flag is
   * set on exactly the entries with that id and never cleared; the log keeps
   * its length and order, and no other field changes.
   */
  function MarkedReverted(log: seq<AuditLogEntry>, id: int): (r: seq<AuditLogEntry>)
    ensures |r| == |log|
    ensures forall i :: 0 <= i < |log| ==> r[i].reverted == (log[i].reverted || log[i].id == id)
    ensures forall i :: 0 <= i < |log| ==> r[i].(reverted := false) == log[i].(reverted := false)
  {
    seq(|log|, i requires 0 <= i < |log| => if log[i].id == id then log[i].(reverted := true) else log[i])
  }

  /**
   * Marking is idempotent: reverting an entry that is already marked (the
   * button is disabled for it, but the handler does not refuse) changes nothing
   * more, and marks for two ids can be applied in either order.
   */
  lemma MarkedRevertedSpec(log: seq<AuditLogEntry>, id: int, other: int)
    ensures MarkedReverted(MarkedReverted(log, id), id) == MarkedReverted(log, id)
    ensures MarkedReverted(MarkedReverted(log, id), other) == MarkedReverted(MarkedReverted(log, other), id)
  {
  }

  /** The hosted database, as far as the panel reads and writes it. */
  class Backend {
    var config: seq<TableAuditConfig>
    var nextConfigId: nat
    var log: seq<AuditLogEntry>
    var tables: map<string, seq<RowImage>>

    /** Configuration ids are unique and below the next id the store will issue. */
    ghost predicate Valid()
      reads this`config, this`nextConfigId
    {
      && UniqueIds(config)
      && forall i :: 0 <= i < |config| ==> config[i].id < nextConfigId
    }

    constructor (tables0: map<string, seq<RowImage>>, log0: seq<AuditLogEntry>)
      ensures Valid()
      ensures config == [] && nextConfigId == 0 && log == log0 && tables == tables0
    {
      config, nextConfigId, log, tables := [], 0, log0, tables0;
    }

    /** `.from("quickaudit_config").insert({ table_name, audit_enabled })` */
    method InsertConfig(name: string, enabled: bool, now: int)
      requires Valid()
      modifies this
      ensures Valid()
      ensures config == old(config) + [TableAuditConfig(old(nextConfigId), name, enabled, now)]
      ensures nextConfigId == old(nextConfigId) + 1
      ensures log == old(log) && tables == old(tables)
    {
      config := config + [TableAuditConfig(nextConfigId, name, enabled, now)];
      nextConfigId := nextConfigId + 1;
    }

    /**
     * A compensating write. It fails (and changes nothing) when the table does
     * not exist or when the database rejects it, which `fails` stands for.
     */
    method Write(w: Write, fails: bool) returns (ok: bool)
      modifies this
      ensures ok == (w.table in old(tables) && !fails)
      ensures tables == (if ok then ApplyWrite(old(tables), w) else old(tables))
      ensures config == old(config) && nextConfigId == old(nextConfigId) && log == old(log)
    {
      ok := w.table in tables && !fails;
      if ok {
        tables := ApplyWrite(tables, w);
      }
    }

    method MarkReverted(id: int)
      modifies this
      ensures log == MarkedReverted(old(log), id)
      ensures config == old(config) && nextConfigId == old(nextConfigId) && tables == old(tables)
    {
      log := MarkedReverted(log, id);
    }
  }
}
