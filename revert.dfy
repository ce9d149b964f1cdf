/**
 * handleRevert's dispatch: the compensating write each operation kind calls
 * for, and what that write does to the affected table.
 */
module Revert {
  import opened AuditTypes
  import opened RowDiff
  import opened AuditStore

  /**
   * What handleRevert does before marking the entry: issue a write, issue
   * nothing (an operation it does not know), or stop with an exception
   * (reading `id` from, or inserting, a null old image).
   */
  datatype RevertPlan = Compensate(w: Write) | NoWrite | Fails

  function CompensatingWrite(operation: string, oldData: Option<RowImage>, tableName: string): (p: RevertPlan)
    ensures p.Compensate? ==> p.w.table == tableName && oldData.Some?
    ensures p.NoWrite? <==> operation != "INSERT" && operation != "UPDATE" && operation != "DELETE"
    ensures p.Fails? <==> !p.NoWrite? && oldData.None?
  {
    if operation == "INSERT" then
      if oldData.None? then Fails else Compensate(DeleteWhereId(tableName, Get(oldData.value, "id")))
    else if operation == "UPDATE" then
      if oldData.None? then Fails else Compensate(UpdateWhereId(tableName, oldData.value, Get(oldData.value, "id")))
    else if operation == "DELETE" then
      if oldData.None? then Fails else Compensate(InsertRow(tableName, oldData.value))
    else NoWrite
  }

  /** Reverting an INSERT removes the rows carrying the old image's id and keeps every other row. */
  lemma RevertInsertDeletes(rows: seq<RowImage>, oldImg: RowImage, tableName: string)
    requires "id" in oldImg
    ensures CompensatingWrite("INSERT", Some(oldImg), tableName).Compensate?
    ensures var after := ApplyToRows(rows, CompensatingWrite("INSERT", Some(oldImg), tableName).w);
      forall row :: row in after <==> row in rows && Get(row, "id") != Some(oldImg["id"])
  {
  }

  /**
   * Reverting an UPDATE puts the old image back on the row it was taken from
   * (the row with the same id, whose columns the old image covers) and leaves
   * rows with other ids alone.
   */
  lemma RevertUpdateRestores(rows: seq<RowImage>, oldImg: RowImage, tableName: string, i: nat)
    requires "id" in oldImg
    requires i < |rows| && Get(rows[i], "id") == Some(oldImg["id"]) && rows[i].Keys <= oldImg.Keys
    ensures CompensatingWrite("UPDATE", Some(oldImg), tableName).Compensate?
    ensures var after := ApplyToRows(rows, CompensatingWrite("UPDATE", Some(oldImg), tableName).w);
      && |after| == |rows|
      && after[i] == oldImg
      && forall j :: 0 <= j < |rows| && Get(rows[j], "id") != Some(oldImg["id"]) ==> after[j] == rows[j]
  {
    var after := ApplyToRows(rows, CompensatingWrite("UPDATE", Some(oldImg), tableName).w);
    assert after[i] == rows[i] + oldImg;
    assert (rows[i] + oldImg).Keys == oldImg.Keys;
  }

  /**
   * When the row still holds the entry's new image, reverting the UPDATE
   * leaves exactly what undoing the panel's diff of that entry gives.
   */
  lemma RevertUpdateUndoesDiff(rows: seq<RowImage>, oldImg: RowImage, newImg: RowImage, tableName: string, i: nat,
                               oldKeys: seq<string>, newKeys: seq<string>)
    requires Enumerates(oldKeys, oldImg) && Enumerates(newKeys, newImg)
    requires "id" in oldImg && Get(newImg, "id") == Some(oldImg["id"]) && newImg.Keys <= oldImg.Keys
    requires i < |rows| && rows[i] == newImg
    ensures CompensatingWrite("UPDATE", Some(oldImg), tableName).Compensate?
    ensures ApplyToRows(rows, CompensatingWrite("UPDATE", Some(oldImg), tableName).w)[i]
      == Undo(newImg, Diff(oldImg, newImg, oldKeys, newKeys))
  {
    RevertUpdateRestores(rows, oldImg, tableName, i);
    UndoDiffGivesOld(oldImg, newImg, oldKeys, newKeys);
  }

  /** Reverting a DELETE appends the old image to the table and keeps the rows already there. */
  lemma RevertDeleteReinserts(rows: seq<RowImage>, oldImg: RowImage, tableName: string)
    ensures CompensatingWrite("DELETE", Some(oldImg), tableName).Compensate?
    ensures ApplyToRows(rows, CompensatingWrite("DELETE", Some(oldImg), tableName).w) == rows + [oldImg]
  {
  }
}
