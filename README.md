# QuickAudit audit panel — a Dafny model

QuickAudit is a browser dashboard over a hosted database. It lists the tables that can be audited, lets an operator switch auditing on or off for each table, shows a searchable and filterable feed of row-level change events (INSERT / UPDATE / DELETE), and can revert a change by issuing a compensating write. This project models the decision logic of the audit panel (`components/quickaudit-dashboard.tsx`) without the React component and without the network client:

- **Row-image diff** (`getDiffText`). Given the old and new image of a row, it reports every key of the new image whose value differs from the old one, and every key that exists only in the old image as removed. It returns nothing (null) when either image is missing or nothing differs. The model keeps the two loops over the key order as a method, `RowDiff.GetDiff`. The formatted `key: old → new` lines become `Changed`/`Removed` records. The diff is proved to be a patch: applying it to the old image gives the new image, and undoing it on the new image gives the old image back.
- **Feed filters and drop-down options** (`filteredLogs`, `uniqueTables`, `uniqueOperations`, clear-filters). The filter is a search term, an optional table and an optional operation. Empty strings count as "not set", as JavaScript truthiness has it. The filtered feed is an order-preserving subsequence of the loaded log. The option lists are duplicate-free and hold exactly the names that occur in the log.
- **Configuration reconciliation and statistics** (`fetchData`). The model counts enabled tables and entries newer than a given cutoff. It inserts one disabled configuration row for each schema table that has none. It then shows that the recursive re-fetch finds nothing left to insert.
- **Local toggle** (`toggleAudit`). After a successful RPC, the row with the matching id gets the flag `!currentState` and the enabled counter moves by one. The counter is proved to stay equal to the number of enabled rows.
- **Revert** (`handleRevert`). INSERT maps to a delete by the old image's id, UPDATE to an update back to the old image, and DELETE to a re-insert of the old image. If the write succeeds (or no write was needed), the entry is marked reverted. Marking never clears a flag.

The hosted database is an in-memory class, `AuditStore.Backend`. It holds the configuration table, the audit log and the user tables, and each query becomes one state update on it. Failures of the network calls are inputs: `configFails` and `logsFails` (booleans) for the configuration and log selects of fetchData, `schema` (absent when the schema RPC fails), `rpcError` (an optional error message) for the toggle RPC, and `writeFails` (a boolean) for a compensating write.

Two properties the code keeps without checking them:
- The code does not enforce one configuration row per table name. `ConfigSync.ReconciledUniqueNames` shows that reconciliation keeps unique names when the schema list has no duplicates. A schema list with duplicates gets one inserted row per occurrence, as the code's `filter` does; the multiset clause of `ConfigSync.MissingTables` states that count.
- No path in the panel clears a reverted flag. `AuditStore.MarkedReverted` states it.

Files, one module each: `audit_types.dfy` (records, sequence helpers), `row_diff.dfy`, `log_filter.dfy`, `config_sync.dfy`, `audit_store.dfy`, `revert.dfy`, `dashboard.dfy`.

## Model

| member | source | states |
|---|---|---|
| `RowDiff.GetDiff` | components/quickaudit-dashboard.tsx:266-284 | Returns null when either image is missing. Otherwise returns the records of the two loops, taken over the given key order, or null when there are none. The result is null exactly when an image is missing or the two images are equal. |
| `RowDiff.DiffRecords` | components/quickaudit-dashboard.tsx:270-281 | For every key, the diff holds exactly the record of an independent definition. A key of the new image is reported, with its old and new value, exactly when the values differ; an absent old value counts as differing. A key only in the old image gets a Removed record. A key in both images is never reported as removed. No key is reported twice. |
| `RowDiff.DiffEmptyIff` | components/quickaudit-dashboard.tsx:283 | No change records are collected exactly when the two images are equal, so identical images give null. |
| `RowDiff.ApplyDiffGivesNew` | components/quickaudit-dashboard.tsx:266-284 | Applying the reported changes to the old image yields the new image. |
| `RowDiff.UndoDiffGivesOld` | components/quickaudit-dashboard.tsx:266-284 | Undoing the reported changes on the new image, using the recorded old values, restores the old image. |
| `LogFilter.FilteredLogs` | components/quickaudit-dashboard.tsx:236-247 | The filtered feed is no longer than the loaded log, and every kept entry passes the search, the selected table and the selected operation. |
| `LogFilter.FilteredLogsSpec` | components/quickaudit-dashboard.tsx:236-247 | The filtered feed is an order-preserving subsequence of the loaded log. An entry is in it exactly when the entry is in the log and matches all three controls. A matching entry occurs in the feed as often as in the log. |
| `LogFilter.MatchesSearch` | components/quickaudit-dashboard.tsx:237-241 | An entry passes the search box exactly when the term is empty, or the term occurs at some index of the table name, of the user e-mail (when there is one) or of the serialised new image. |
| `LogFilter.Matches` | components/quickaudit-dashboard.tsx:243-246 | An entry that passes has passed the search box and equals the selected table and operation when those are set. With no table and no operation set, passing is passing the search box. With an empty term and only a table set, passing is having that table name. |
| `LogFilter.IncludesIff` | components/quickaudit-dashboard.tsx:238-240 | The recursive substring test accepts a string exactly when the term occurs in it at some index, in both directions. |
| `LogFilter.ClearedFilters` | components/quickaudit-dashboard.tsx:576-580 | Clear-filters leaves an empty search term and no table or operation selected. |
| `LogFilter.ClearedFiltersShowAll` | components/quickaudit-dashboard.tsx:237-244 | With an empty search term and no table or operation selected, the filtered feed equals the loaded log. |
| `LogFilter.Distinct` | components/quickaudit-dashboard.tsx:250-251 | The deduplicated list has no repeated element and holds exactly the elements of its input. |
| `LogFilter.DistinctIsSubsequence` | components/quickaudit-dashboard.tsx:250-251 | The deduplicated list keeps the input's order (a subsequence of it). |
| `LogFilter.DistinctPrefix` | components/quickaudit-dashboard.tsx:250-251 | Every prefix of the input deduplicates to a prefix of the result, so elements are listed in order of their first occurrence, as a `Set`'s insertion order gives. |
| `LogFilter.UniqueTables` | components/quickaudit-dashboard.tsx:250 | The table options have no duplicates, and their set equals the set of table names in the loaded log. |
| `LogFilter.UniqueOperations` | components/quickaudit-dashboard.tsx:251 | The operation options have no duplicates, and their set equals the set of operations in the loaded log. |
| `ConfigSync.EnabledCount` | components/quickaudit-dashboard.tsx:98 | The number of enabled configuration rows is at most the number of rows. |
| `ConfigSync.EnabledCountIsCardinality` | components/quickaudit-dashboard.tsx:98 | The enabled count equals the number of positions whose row has the flag set. |
| `ConfigSync.RecentCount` | components/quickaudit-dashboard.tsx:103 | The number of loaded entries newer than the cutoff, at most the number of entries; `ConfigSync.RecentCountIsCardinality` gives its value. |
| `ConfigSync.RecentCountIsCardinality` | components/quickaudit-dashboard.tsx:101-103 | The recent count equals the number of log positions whose timestamp is after the cutoff. |
| `ConfigSync.ComputeStats` | components/quickaudit-dashboard.tsx:98-112 | enabledTables is the number of rows with the flag set, and recentEvents the number of entries after the cutoff. recentEvents ≤ totalEvents = number of loaded entries. totalTables is the schema length when that is non-zero, and the number of configuration rows otherwise. |
| `ConfigSync.MissingTables` | components/quickaudit-dashboard.tsx:116-117 | A table is missing exactly when it is in the schema list and has no configuration row. The missing list keeps schema order. It holds each unconfigured name as often as the schema list does. It is empty exactly when every schema table is configured. |
| `ConfigSync.ReconciledCoversSchema` | components/quickaudit-dashboard.tsx:114-126 | After the insert loop, every schema table name has a configuration row. |
| `ConfigSync.ReconciledKeepsEnabledCount` | components/quickaudit-dashboard.tsx:119-126 | The inserted rows all have auditing disabled, so the enabled count is unchanged. |
| `ConfigSync.ReconcileIdempotent` | components/quickaudit-dashboard.tsx:127-129 | Reconciling the result against the same schema finds no table missing, so the re-fetch adds no more rows. |
| `ConfigSync.ReconciledUniqueNames` | components/quickaudit-dashboard.tsx:116-126 | If configuration names are unique and the schema list has no duplicates, names stay unique after reconciliation. |
| `ConfigSync.ToggleLocal` | components/quickaudit-dashboard.tsx:160-170 | The update keeps the number of rows and every row's id, name and creation time. A row with the id gets the flag `!currentState`; every other row keeps its flag. |
| `ConfigSync.AdjustEnabled` | components/quickaudit-dashboard.tsx:173-176 | The counter moves by exactly one, and it goes down exactly when the switch was on. |
| `ConfigSync.ToggleKeepsCountInSync` | components/quickaudit-dashboard.tsx:160-176 | Take ids that are unique and a row with the id whose flag is `currentState`. Then the counter adjusted by −1 or +1 equals the enabled count of the updated rows. |
| `AuditStore.DeleteMatching` | components/quickaudit-dashboard.tsx:210 | A delete by id keeps, in order, exactly the rows whose id does not match, each as often as before. |
| `AuditStore.UpdateMatching` | components/quickaudit-dashboard.tsx:215 | An update by id keeps the number of rows and leaves rows whose id does not match unchanged. On a matching row every column of the image takes the image's value and every other column keeps its value. |
| `AuditStore.ApplyWrite` | components/quickaudit-dashboard.tsx:208-223 | A compensating write changes only the table it names. |
| `AuditStore.MarkedReverted` | components/quickaudit-dashboard.tsx:226 | Marking sets the reverted flag of exactly the entries with that id and never clears a flag. The log keeps its length and order, and no other field changes. |
| `AuditStore.MarkedRevertedSpec` | components/quickaudit-dashboard.tsx:226 | Marking the same id twice is marking it once, and marks for two ids commute. |
| `AuditStore.Backend.InsertConfig` | components/quickaudit-dashboard.tsx:122-125 | Appends one configuration row with a fresh id and the given flag, and leaves the log and the user tables unchanged. |
| `AuditStore.Backend.Write` | components/quickaudit-dashboard.tsx:208-223 | A write succeeds exactly when its table exists and the database does not reject it, and only then are the user tables updated. |
| `AuditStore.Backend.MarkReverted` | components/quickaudit-dashboard.tsx:226 | The log becomes the marked log, and nothing else changes. |
| `Revert.CompensatingWrite` | components/quickaudit-dashboard.tsx:208-223 | Only INSERT, UPDATE and DELETE produce a write, and that write targets the entry's table. An unknown operation produces no write. A known operation with a null old image ends in the exception path. |
| `Revert.RevertInsertDeletes` | components/quickaudit-dashboard.tsx:208-212 | Reverting an INSERT removes the rows whose id equals the old image's id and keeps every other row. |
| `Revert.RevertUpdateRestores` | components/quickaudit-dashboard.tsx:213-217 | Reverting an UPDATE restores the old image on the row with its id, when the old image covers that row's columns. Rows with other ids are untouched. |
| `Revert.RevertUpdateUndoesDiff` | components/quickaudit-dashboard.tsx:213-217 | When the row still holds the entry's new image, reverting the UPDATE gives the same row as undoing the panel's diff of that entry. |
| `Revert.RevertDeleteReinserts` | components/quickaudit-dashboard.tsx:218-222 | Reverting a DELETE appends the old image and keeps the existing rows. |
| `Dashboard.ReconcileConfig` | components/quickaudit-dashboard.tsx:114-126 | The insert loop leaves the configuration table equal to the reference function `ConfigSync.Reconciled`: exactly one disabled row per missing table, in schema order, after the existing rows. The existing rows are untouched. The number added equals the number of missing tables. The store invariant (unique ids) is kept. |
| `Dashboard.FetchData` | components/quickaudit-dashboard.tsx:73-137 | A failed configuration or log select leaves the panel and the configuration table unchanged. Otherwise, after loading, reconciling and (when rows were added) re-fetching, the panel shows the reconciled configuration and the log. Its statistics are computed from them, and the enabled counter agrees with the rows. Every schema table has a row, and ids are unique. |
| `Dashboard.ToggleAudit` | components/quickaudit-dashboard.tsx:139-181 | The log, the filters, the number of rows and every statistic except the enabled counter stay. A failed RPC changes no row and no statistic and sets the banner to the message with the RPC's error. A successful one clears the banner and moves the counter. |
| `Dashboard.ToggleAuditSpec` | components/quickaudit-dashboard.tsx:139-181 | A toggle from a row's switch keeps the counter in step with the rows. On success that row gets `!currentState` and keeps its id, name and creation time, and every other row stays. A failed RPC changes no row and no statistic and sets the banner to the RPC's message. The log, the filters and the other statistics are never touched. |
| `Dashboard.HandleRevert` | components/quickaudit-dashboard.tsx:205-233 | A null old image for a known operation, or a failed write, marks nothing and changes nothing. Otherwise the compensating write (if any) is applied and the entry is marked reverted. |

## Left out

- Supabase client creation from environment variables (lines 54-64) and the "setup" screen shown without a client: configuration, not logic.
- Query ordering and limits: configuration sorted by table name, log sorted by timestamp descending and cut to 100 rows (lines 78-92). The database applies these. `Dashboard.FetchData` reads the store's whole configuration table and whole log, in store order, so totalEvents is not capped at 100 and recentEvents is counted over the whole log rather than the newest 100 entries.
- The RPCs `toggle_table_audit` and `enable_all_audits` (`enableAllTables`, lines 183-203): they run as database functions that are not part of this repository. `Dashboard.ToggleAudit` takes the RPC's error as an input. `enableAllTables` clears the error banner, calls the RPC, sets the banner to `Failed to enable all audits: …` and returns on an RPC error as toggleAudit does, and otherwise re-fetches; it is left out with the RPCs.
- An exception thrown by the toggle RPC call itself (the catch block at lines 177-180, with a generic error message) is not separated from an error the RPC returns. Both are the `rpcError` input.
- async/await, `useEffect`, the `loading` flag and `console.error`: UI plumbing. The React state is the `Dashboard.Panel` value.
- Dates: timestamps are integers, and the 24-hour window is a given cutoff. Locale formatting is not modelled.
- `JSON.stringify` in the search box is a function parameter `serialize`. `formatData` and the joined diff text become `Change` records.
- Values are JSON scalars with integer numbers. JavaScript compares nested objects with `!==` by reference; that and floating-point numbers are not modelled. `for...in` key order is an input sequence. `key in newData` also finds inherited properties such as `constructor`; that is not modelled either.
- Configuration ids are natural numbers issued by the store rather than UUIDs. `created_at` is a given integer.
- `Dashboard.FetchData`: the selects of the re-fetch are taken to succeed; only the first round's failures are inputs. A failed schema RPC is a missing schema list.
- Failed inserts during reconciliation: the code ignores the insert's result, while the in-memory insert always succeeds. A persistent failure would make the re-fetch repeat indefinitely.
- The re-fetch fetches the schema again; the model reuses the same schema list for the second round.
- The result of the mark-reverted update is ignored by the code; the model's marking always succeeds. The refresh after a revert (line 229) is a separate `Dashboard.FetchData` call.
- `.eq("id", undefined)` (an old image without `id`) is modelled as matching no row.
- The per-entry summary text (lines 669-673), badges, tooltips and all JSX, and the whole of `components/dashboard-demo.tsx`: presentation only.
- The Revert button is disabled for entries already reverted (line 751). `Dashboard.HandleRevert` itself does not refuse such an entry, nor does the code's handler.
