/**
 * The audit-log feed's search and filters (filteredLogs), the option lists
 * of the two drop-downs (uniqueTables, uniqueOperations) and the
 * clear-filters button.
 */
module LogFilter {
  import opened AuditTypes

  /** The three filter controls; a selection of None stands for JavaScript's null. */
  datatype Filters = Filters(searchTerm: string, selectedTable: Option<string>, selectedOperation: Option<string>)

  /** The state the clear-filters button sets. */
  function ClearedFilters(): (f: Filters)
    ensures f.searchTerm == "" && !Truthy(f.selectedTable) && !Truthy(f.selectedOperation)
  {
    Filters("", None, None)
  }

  /** JavaScript truthiness of `string | null`: neither null nor the empty string. */
  predicate Truthy(o: Option<string>) {
    o.Some? && o.value != ""
  }

  /** `s.includes(t)`: `t` occurs somewhere in `s`. */
  predicate Includes(s: string, t: string) {
    t <= s || (|s| > 0 && Includes(s[1..], t))
  }

  lemma {:induction false} IncludesAt(s: string, t: string, i: nat)
    requires i + |t| <= |s| && s[i..i + |t|] == t
    ensures Includes(s, t)
  {
    if i > 0 {
      assert s[1..][i - 1..i - 1 + |t|] == s[i..i + |t|];
      IncludesAt(s[1..], t, i - 1);
    } else {
      assert s[..|t|] == t;
    }
  }

  /** `t` occurs in `s` starting at index `i`: the index meaning of `String.prototype.includes`. */
  predicate OccursAt(s: string, t: string, i: nat) {
    i + |t| <= |s| && s[i..i + |t|] == t
  }

  ghost predicate Occurs(s: string, t: string) {
    exists i: nat :: OccursAt(s, t, i)
  }

  /** The recursive `Includes` accepts exactly the strings in which `t` occurs at some index. */
  lemma {:induction false} IncludesIff(s: string, t: string)
    ensures Includes(s, t) <==> Occurs(s, t)
    decreases |s|
  {
    if Includes(s, t) {
      if t <= s {
        assert OccursAt(s, t, 0);
      } else {
        IncludesIff(s[1..], t);
        var i: nat :| OccursAt(s[1..], t, i);
        assert s[1..][i..i + |t|] == s[i + 1..i + 1 + |t|];
        assert OccursAt(s, t, i + 1);
      }
    }
    if Occurs(s, t) {
      var i: nat :| OccursAt(s, t, i);
      IncludesAt(s, t, i);
    }
  }

  /**
   * The search box: an empty term matches everything; otherwise the term
   * must occur in the table name, the user e-mail (when there is one) or the
   * serialised new row image. `serialize` stands for JSON.stringify.
   */
  function MatchesSearch(e: AuditLogEntry, term: string, serialize: Option<RowImage> -> string): (r: bool)
    ensures r <==> || term == ""
                   || Occurs(e.tableName, term)
                   || (e.userEmail.Some? && Occurs(e.userEmail.value, term))
                   || Occurs(serialize(e.rowData), term)
  {
    IncludesIff(e.tableName, term);
    IncludesIff(serialize(e.rowData), term);
    IncludesIff(if e.userEmail.Some? then e.userEmail.value else "", term);
    term == ""
    || Includes(e.tableName, term)
    || (e.userEmail.Some? && Includes(e.userEmail.value, term))
    || Includes(serialize(e.rowData), term)
  }

  /**
   * One entry against the three controls. A control that is not set (null or
   * "") lets every entry through; a set table or operation must be equal.
   */
  function Matches(e: AuditLogEntry, f: Filters, serialize: Option<RowImage> -> string): (r: bool)
    ensures r ==> MatchesSearch(e, f.searchTerm, serialize)
    ensures r && Truthy(f.selectedTable) ==> e.tableName == f.selectedTable.value
    ensures r && Truthy(f.selectedOperation) ==> e.operation == f.selectedOperation.value
    ensures !Truthy(f.selectedTable) && !Truthy(f.selectedOperation) ==> (r <==> MatchesSearch(e, f.searchTerm, serialize))
    ensures f.searchTerm == "" && !Truthy(f.selectedOperation) && Truthy(f.selectedTable) ==> (r <==> e.tableName == f.selectedTable.value)
  {
    && MatchesSearch(e, f.searchTerm, serialize)
    && (Truthy(f.selectedTable) ==> e.tableName == f.selectedTable.value)
    && (Truthy(f.selectedOperation) ==> e.operation == f.selectedOperation.value)
  }

  /** `changes.filter(...)`: the entries that pass all three controls, in their original order. */
  function FilteredLogs(changes: seq<AuditLogEntry>, f: Filters, serialize: Option<RowImage> -> string)
    : (r: seq<AuditLogEntry>)
    ensures |r| <= |changes|
    ensures forall e :: e in r ==> Matches(e, f, serialize)
  {
    if changes == [] then []
    else
      var rest := FilteredLogs(changes[..|changes| - 1], f, serialize);
      var e := changes[|changes| - 1];
      if Matches(e, f, serialize) then rest + [e] else rest
  }

  /**
   * The filtered feed is an order-preserving subsequence of the loaded log
   * and keeps every entry that matches, as often as it occurs there.
   */
  lemma {:induction false} FilteredLogsSpec(changes: seq<AuditLogEntry>, f: Filters, serialize: Option<RowImage> -> string)
    ensures IsSubsequence(FilteredLogs(changes, f, serialize), changes)
    ensures forall e :: e in FilteredLogs(changes, f, serialize) <==> e in changes && Matches(e, f, serialize)
    ensures forall e :: multiset(FilteredLogs(changes, f, serialize))[e]
                        == if Matches(e, f, serialize) then multiset(changes)[e] else 0
  {
    if changes != [] {
      var front, e := changes[..|changes| - 1], changes[|changes| - 1];
      FilteredLogsSpec(front, f, serialize);
      var rest := FilteredLogs(front, f, serialize);
      assert changes == front + [e];
      assert multiset(changes) == multiset(front) + multiset{e};
      if Matches(e, f, serialize) {
        assert (rest + [e])[..|rest + [e]| - 1] == rest;
      } else {
        if rest != [] {
          assert rest[|rest| - 1] in rest;
          assert rest[|rest| - 1] != e;
        }
      }
    }
  }

  /** After clear-filters the feed shows the whole loaded log. */
  lemma {:induction false} ClearedFiltersShowAll(changes: seq<AuditLogEntry>, serialize: Option<RowImage> -> string)
    ensures FilteredLogs(changes, ClearedFilters(), serialize) == changes
  {
    if changes != [] {
      ClearedFiltersShowAll(changes[..|changes| - 1], serialize);
      assert changes == changes[..|changes| - 1] + [changes[|changes| - 1]];
    }
  }

  // ---------------------------------------------------------------------------
  // Drop-down options

  /**
   * `Array.from(new Set(s))`: the distinct elements of `s` in order of first
   * occurrence (`DistinctPrefix` states the order).
   */
  function Distinct(s: seq<string>): (r: seq<string>)
    ensures NoDuplicates(r)
    ensures forall x :: x in r <==> x in s
  {
    if s == [] then []
    else
      var d := Distinct(s[..|s| - 1]);
      var x := s[|s| - 1];
      assert s == s[..|s| - 1] + [x];
      if x in d then d else d + [x]
  }

  lemma {:induction false} DistinctIsSubsequence(s: seq<string>)
    ensures IsSubsequence(Distinct(s), s)
  {
    if s != [] {
      var front, x := s[..|s| - 1], s[|s| - 1];
      DistinctIsSubsequence(front);
      var d := Distinct(front);
      if x in d {
        SubsequenceAppend(d, front, x);
        assert front + [x] == s;
      } else {
        assert (d + [x])[..|d + [x]| - 1] == d;
      }
    }
  }

  /**
   * Every prefix of the input deduplicates to a prefix of the result. With the
   * membership clause of `Distinct` this fixes the order: an element whose first
   * occurrence comes earlier is listed earlier.
   */
  lemma {:induction false} DistinctPrefix(s: seq<string>, k: nat)
    requires k <= |s|
    ensures Distinct(s[..k]) <= Distinct(s)
    decreases |s|
  {
    if k < |s| {
      var front := s[..|s| - 1];
      assert front[..k] == s[..k];
      DistinctPrefix(front, k);
    } else {
      assert s[..k] == s;
    }
  }

  function TableNames(changes: seq<AuditLogEntry>): seq<string> {
    seq(|changes|, i requires 0 <= i < |changes| => changes[i].tableName)
  }

  function Operations(changes: seq<AuditLogEntry>): seq<string> {
    seq(|changes|, i requires 0 <= i < |changes| => changes[i].operation)
  }

  /** The table drop-down: every table name of the loaded log, once each. */
  function UniqueTables(changes: seq<AuditLogEntry>): (r: seq<string>)
    ensures NoDuplicates(r)
    ensures (set x | x in r) == (set e | e in changes :: e.tableName)
  {
    var r := Distinct(TableNames(changes));
    assert forall e | e in changes :: e.tableName in TableNames(changes) by {
      forall e | e in changes ensures e.tableName in TableNames(changes) {
        var i :| 0 <= i < |changes| && changes[i] == e;
        assert TableNames(changes)[i] == e.tableName;
      }
    }
    r
  }

  /** The operation drop-down: every operation of the loaded log, once each. */
  function UniqueOperations(changes: seq<AuditLogEntry>): (r: seq<string>)
    ensures NoDuplicates(r)
    ensures (set x | x in r) == (set e | e in changes :: e.operation)
  {
    var r := Distinct(Operations(changes));
    assert forall e | e in changes :: e.operation in Operations(changes) by {
      forall e | e in changes ensures e.operation in Operations(changes) {
        var i :| 0 <= i < |changes| && changes[i] == e;
        assert Operations(changes)[i] == e.operation;
      }
    }
    r
  }
}
