# Warehouse ledger model

This project models the ledger at the heart of the power-plant warehouse
application (`db.js`). The browser database holds three object stores:

- `inventory`: items under an auto-increment key, with a unique index on `name`;
- `transactions`: an append-only log under an auto-increment key, indexed by `date`;
- `activeJobs`: jobs under the caller's `jobId`.

Staff issue items to a job. Issuing checks every line's stock first, then
writes the new stocks, logs one 'issue' record per line and creates the job.
Returning items to a job checks each line, writes the new stocks, logs one
'return' record per line, and deletes the job when every line comes back in
full. The dashboard reads the number of items, the checked-out total, the
number of active jobs and the recent activity feed (10 records by default). A
separate report reads the monthly summary.

The project has these modules:

- `Records`: the records of the three stores, the request lines, and the
  errors a call can reject with.
- `Inventory`: the inventory as a map, and the absolute stock overwrites of
  `updateInventoryItem` applied one after another ("last write wins").
- `Ledger`: the three stores as one value `State`.
  - `IssueStep` and `ReturnStep` are the two multi-store operations as
    functions from the state before to the state after plus the settled result.
  - It also holds the per-line checks they are built from and the checked-out
    total.
- `LedgerFacts`: what those two operations guarantee, where they surprise,
  and the issue-then-return round trip.
- `Reports`: the `date` index (records ordered by date, then by key), the
  reverse cursor of the recent-activity feed, and the monthly range and its
  totals.
- `Calendar`: the `Date(year, monthIndex, day, …)` arithmetic behind the
  month bounds.
- `Db`: class `Store`.
  - Its four fields are updated in place, with one method per database call.
  - `IssueItems` and `ReturnItemsToInventory` drive the store methods in loops.
  - Each is proved to leave exactly the state, and settle with exactly the
    result, that `Ledger.IssueStep` or `Ledger.ReturnStep` describes.

Choices worth knowing when reading the model:

- The parallel writes of a `Promise.all` are applied one after another in
  creation order: stock writes, then log records, then the job. When two
  checks fail, the error of the first failing line in request order wins.
- A job id already in use is only discovered by the job's `add`, the last
  write. The issue then rejects with `DuplicateJobId` after its stock writes
  and log records are already in place (`LedgerFacts.IssueDuplicateJob`).
- Each issue line writes "stock read by the check minus its own quantity".
  An item named on two lines therefore keeps only the last line's deduction,
  and the stock check never compares the sum of those lines with the stock
  (`LedgerFacts.IssueSameItemTwice`).
- A return line whose item is missing from the inventory passes the checks
  (`getInventoryItem` resolves with nothing). Computing its new stock then
  throws, after the writes for the earlier lines have been started. The model
  applies the earlier lines' writes and rejects with `MissingItem`.
- `IssueItems` takes `date` as an `Option` (`None` when the caller passes
  nothing) and the current time `now` as a parameter. `ReturnItemsToInventory`
  takes `now`. Timestamps are milliseconds since 1970-01-01 in UTC.

### Behaviour worth knowing

The model follows db.js in every case below:

- Quantities are never checked for sign or for being non-zero. An empty issue
  creates a job with no items (`LedgerFacts.IssueEmptyCreatesEmptyJob`). An
  empty return deletes the job (`LedgerFacts.ReturnEmptyRemovesJob`).
- A partial return leaves the job's item quantities unchanged instead of
  reducing them. Stock plus checked-out quantity is therefore not conserved
  (`LedgerFacts.PartialReturnOvercounts`).
- `originalQty` comes from the caller and is never compared with the job's
  recorded quantity (db.js:445; `LedgerFacts.ReturnTrustsOriginalQty`).
- A job's items get the unit `""`.
- An issue rejected for a duplicate job id leaves its stock writes and its
  records behind (db.js:418-422; `LedgerFacts.IssueDuplicateJob`).
- A return rejected for a missing item keeps the stock writes of the lines
  before that item, but logs nothing and keeps the job (db.js:455-457;
  `LedgerFacts.ReturnMissingItem`).

## Model

| member | source | states |
|---|---|---|
| `Inventory.ApplyWrites` | db.js:79-108 | after a run of `updateInventoryItem` writes every item is still there, under the same key, with the same id, name and unit; only stocks change |
| `Inventory.StockAfterWrites` | db.js:387-390 | last write wins: an item's stock after the run is the value of the last write naming it, or its old stock when none does |
| `Inventory.LastWriteLands` | db.js:455-457 | a write that no later write to the same item follows sets that item's stock and nothing else of it |
| `Inventory.UnwrittenItemKept` | db.js:90-94 | an item no write names keeps its whole record |
| `Inventory.WritesKeepNames` | db.js:27 | stock writes keep the set of names in use and their uniqueness |
| `Inventory.UniqueNamesCount` | db.js:27 | with the unique `name` index there are exactly as many names in use as items |
| `Reports.InsertByDate` | db.js:34 | placing a record into the date index keeps the index sorted by date, then key, and adds exactly that record |
| `Reports.DateIndex` | db.js:34 | the `date` index holds exactly the log's records, each as often as in the log, sorted by date and then by key |
| `Reports.Backwards` | db.js:167-185 | the first n records a `prev` cursor meets are the index's last n, in reverse order |
| `Reports.BackwardsNewestFirst` | db.js:167-185 | the reverse cursor meets records in non-increasing index order, and no record it has not reached is newer than one it has |
| `Reports.BackwardsCoversLog` | db.js:166-185 | every record the reverse cursor meets is in the log, and every log record it has not met is no newer than those it has |
| `Reports.Latest` | db.js:162-187 | recent activity holds `limit` records (none for `limit <= 0`, all when the log is shorter), newest first, all from the log with none repeated, and no record left out is newer than one kept |
| `Reports.InRange` | db.js:200-201 | every record the bound range yields has a date between the bounds inclusive |
| `Reports.Sum` | db.js:216-224 | a total over records none of which has the action is zero, and a total over non-negative quantities is non-negative |
| `Reports.InRangeCount` | db.js:200-201 | the bound range keeps each in-range record as often as the log holds it and drops every other record |
| `Reports.InRangeMembers` | db.js:200-201 | a record is in the range exactly when it is in the log and its date lies between the bounds inclusive |
| `Reports.InRangePermutation` | db.js:200-201 | ranges over two orderings of the same records hold the same records |
| `Reports.SumAppend` | db.js:216-224 | the summary totals over two runs of records add up |
| `Reports.SumPermutation` | db.js:216-224 | the summary totals do not depend on the order of the records |
| `Reports.ReportIgnoresOrder` | db.js:200-224 | totals read through the date index equal the totals of the log's in-range records in key order |
| `Calendar.DaysInMonth` | db.js:198 | a month has 28 to 31 days, and 29 exactly for February of a leap year |
| `Calendar.YearLength` | db.js:197-198 | consecutive years start a year's length apart, before and after 1970 |
| `Calendar.DaysBeforeDecember` | db.js:198 | the month lengths add up to the year's length |
| `Calendar.NextMonthFollows` | db.js:197-198 | the first day of a month follows the last day of the month before, across a year end too |
| `Calendar.FullYear` | db.js:197-198 | the `Date` constructor's year is the given one, or 1900 more exactly when the given one lies in 0..99 |
| `Calendar.MakeDate` | db.js:197-198 | with a time of day inside one day, `Date(year, monthIndex, day, …)` falls on the day numbered from the month carried into the year, with the day carried across month ends |
| `Calendar.DayZeroIsLastDay` | db.js:198 | day 0 of a month is the last day of the month before, across a year end too |
| `Calendar.MonthStart` | db.js:197 | the range starts at midnight on the 1st of the month, with a month number outside 1..12 carried into the year |
| `Calendar.MonthEnd` | db.js:198 | the range ends at 23:59:59.999 on the last day of the month, with the same carry |
| `Calendar.MonthRange` | db.js:196-198 | a month's range is never empty, and it ends one millisecond before the next month's range begins |
| `Ledger.Valid` | db.js:26-40 | in a valid state the next inventory key is not in use, and the log's keys increase along the log |
| `Ledger.CheckItem` | db.js:371-380 | one line passes exactly when its item exists with at least the requested stock, yielding what it read; a missing item rejects with `MissingItem`, a short one with `InsufficientStock` naming the item, its stock and the request |
| `Ledger.CheckStock` | db.js:370-385 | the checks pass exactly when every line's item exists with at least the requested stock, yielding what each line read; otherwise the error is that of the first failing line |
| `Ledger.CheckStockRejects` | db.js:371-375 | when a line is the first to fail, the checks reject with that line's own missing-item or insufficient-stock error |
| `Ledger.IssueWrites` | db.js:386-390 | one stock write per passed line, in order, naming the line's item with the stock the check read minus the requested quantity |
| `Ledger.IssueDate` | db.js:393 | the given date when there is one, otherwise the current time |
| `Ledger.IssueEntries` | db.js:394-405 | one 'issue' record per line, keyed consecutively from the next log key, carrying the job id, the date, the line's item and its quantity |
| `Ledger.ActiveJobItems` | db.js:408-415 | the job gets one entry per line, in order, with the line's item id, name and quantity and the unit "", and every issued item can be found on it |
| `Ledger.IssueStep` | db.js:367-427 | an issue resolves exactly when every line passes and the job id is new; a failing line changes nothing; keys and the key generator are kept, and exactly the new job id is added on success |
| `Ledger.FindJobItem` | db.js:440 | the lookup finds nothing exactly when no job entry has the id, and otherwise finds the first entry that does |
| `Ledger.ValidateItem` | db.js:440-447 | a return line passes exactly when its item is on the job and it returns no more than its original quantity, yielding the job's entry; otherwise `ItemNotOnJob` for an item not on the job, or `ReturnExceedsIssued` with the entry's name |
| `Ledger.ValidateReturn` | db.js:439-450 | the return checks pass exactly when every line's item is on the job and no line returns more than its original quantity, yielding each line's job entry; otherwise the error is that of the first failing line |
| `Ledger.ValidateReturnRejects` | db.js:440-447 | when a line is the first to fail, the return checks reject with that line's own error |
| `Ledger.FirstMissing` | db.js:455-457 | counts the leading return lines whose item the inventory holds; the next line's item is absent |
| `Ledger.FirstMissingAt` | db.js:455-457 | the stock writes break off at exactly the first line whose item is absent |
| `Ledger.ReturnWrites` | db.js:453-457 | one stock write per line, in order, naming the line's item with the stock read for it plus the returned quantity |
| `Ledger.ReturnEntries` | db.js:461-473 | one 'return' record per line, keyed consecutively from the next log key, carrying the job id, the date, the line's item and the returned quantity |
| `Ledger.AllReturned` | db.js:476-478 | an empty return counts as returning everything, and a full return returns no line above its original quantity |
| `Ledger.ReturnStep` | db.js:429-494 | an unknown job rejects with `JobNotFound` and changes nothing; a return resolves exactly when the job exists, every line passes and every line's item is in the inventory; keys and the key generator are kept |
| `Ledger.JobQuantity` | db.js:340-342 | a job with no items adds nothing, and non-negative quantities add up to a non-negative total |
| `Ledger.CheckedOutOver` | db.js:339-343 | over jobs with non-negative totals the running total is non-negative |
| `Ledger.CheckedOut` | db.js:336-345 | with no active jobs the checked-out total is zero, and it is non-negative when every job's quantities are |
| `Ledger.CheckedOutTakes` | db.js:339-343 | the checked-out total does not depend on the order in which the jobs are visited |
| `LedgerFacts.IssueRejected` | db.js:370-385 | a line that fails its check leaves every store unchanged and rejects with the first failing line's error, a missing item or insufficient stock |
| `LedgerFacts.IssueShortOnFirstLine` | db.js:373-375 | with five each of A and B in stock, six of A and two of B are refused on A and nothing changes |
| `LedgerFacts.IssueLastLineWins` | db.js:387-390 | a line with no later line for the same item leaves that item at the stock the check read minus the line's quantity |
| `LedgerFacts.IssueKeepsOthers` | db.js:387-390 | items an issue does not name keep their records |
| `LedgerFacts.IssueSucceeds` | db.js:384-390 | an issue of distinct items that all pass, to a new job, resolves; each named item loses exactly its quantity and every other item is untouched |
| `LedgerFacts.IssueRecords` | db.js:393-421 | a passing issue appends one 'issue' record per line, in order, with the job, person, item, quantity, task and the given date or else now; and it adds one job with every line at its full quantity and unit "" |
| `LedgerFacts.IssueDuplicateJob` | db.js:418-422 | a job id already in use rejects the issue only after its stock writes and records are made, exactly as a successful issue makes them |
| `LedgerFacts.IssueSameItemTwice` | db.js:370-390 | ten in stock and two lines of six for the same item both pass, twelve are logged, and the stock ends at four |
| `LedgerFacts.IssueEmptyCreatesEmptyJob` | db.js:367-427 | an issue with no lines changes no stock, logs nothing and still creates a job with no items |
| `LedgerFacts.IssueKeepsValid` | db.js:26-40 | an issue keeps the stores' key, key-generator and unique-name guarantees |
| `LedgerFacts.ReturnJobNotFound` | db.js:432-436 | a return for a job that is not active rejects with `JobNotFound` and changes nothing |
| `LedgerFacts.ReturnRejected` | db.js:439-447 | a line whose item is not on the job, or that returns more than its original quantity, leaves every store unchanged and rejects with the first such line's error |
| `LedgerFacts.ReturnLastLineWins` | db.js:455-457 | a line with no later line for the same item leaves that item at the stock read plus the returned quantity |
| `LedgerFacts.ReturnKeepsOthers` | db.js:455-457 | items a return does not name keep their records |
| `LedgerFacts.ReturnSucceeds` | db.js:452-458 | a passing return of distinct, existing items resolves; each named item gains exactly its returned quantity and every other item is untouched |
| `LedgerFacts.ReturnRecords` | db.js:460-482 | a passing return appends one 'return' record per line with the job's person and task and the job entry's name; the job is deleted exactly when every line returns its original quantity and is otherwise left as it was |
| `LedgerFacts.ReturnMissingItem` | db.js:455-457 | a line whose item the inventory lacks rejects with `MissingItem` with no records and the job kept; items no earlier line names keep their records, and an earlier line no later earlier line overrides adds its returned quantity to its item |
| `LedgerFacts.ReturnEmptyRemovesJob` | db.js:476-482 | a return with no lines changes no stock, logs nothing and deletes the job |
| `LedgerFacts.ReturnTrustsOriginalQty` | db.js:445 | any quantity returned as its own original quantity is accepted, restocked and closes the job, whatever the job recorded |
| `LedgerFacts.PartialReturnOvercounts` | db.js:476-482 | after issuing four of ten bolts and returning one, stock plus checked-out quantity is eleven, not ten |
| `LedgerFacts.ReturnKeepsValid` | db.js:26-40 | a return keeps the stores' key, key-generator and unique-name guarantees |
| `LedgerFacts.FullReturn` | db.js:476-478 | the full return of an issue names the issued items and returns every line in full |
| `LedgerFacts.FullReturnAccepted` | db.js:439-447 | a full return passes the checks of the job its issue created |
| `LedgerFacts.StockRoundTrip` | db.js:388 | taking each line's quantity off its item and putting it back restores the inventory |
| `LedgerFacts.FullReturnRestocks` | db.js:452-458 | a full return to the job an issue of distinct items created puts back exactly what that issue took |
| `LedgerFacts.IssueThenReturnStock` | db.js:367-494 | issuing distinct items and then returning every line in full resolves both times and restores every item exactly |
| `LedgerFacts.IssueThenReturnJobs` | db.js:367-494 | that round trip removes the job again and logs one record per line each way |
| `LedgerFacts.IssueThenReturnRestores` | db.js:367-494 | issuing distinct items and returning them all in full restores the inventory and the active jobs exactly |
| `Db.Store.constructor` | db.js:21-42 | a new database has three empty stores and its item key generator at 1 |
| `Db.Store.GetInventoryItem` | db.js:63-77 | yields the item stored under the id, or nothing when there is none |
| `Db.Store.UpdateInventoryItem` | db.js:79-108 | an absent id is rejected with `ItemNotFound` and nothing changes; otherwise only that item's `currentStock` is overwritten |
| `Db.Store.AddNewInventoryItem` | db.js:110-131 | a name in use is rejected with `DuplicateName` and neither the store nor the key generator changes; otherwise exactly one item is added under the next key with the given stock and unit |
| `Db.Store.GetTotalInventoryItems` | db.js:309-323 | counts the items, which is also the number of names in use |
| `Db.Store.AddTransaction` | db.js:134-160 | appends exactly one record, under the next key, and changes nothing else |
| `Db.Store.GetRecentActivity` | db.js:162-187 | the cursor loop yields `Reports.Latest`: the newest `limit` records, newest first, with `limit` 10 when the caller gives none |
| `Db.Summarize` | db.js:209-224 | the `forEach` loop's totals are the issued and returned sums of the records, and `netChange` is returned minus issued |
| `Db.Store.GetMonthlyReport` | db.js:189-232 | the report lists the month's records in index order; its totals are the issued and returned sums over the month's records in any order, and `netChange` is returned minus issued |
| `Db.Store.AddActiveJob` | db.js:235-258 | a job id in use is rejected with `DuplicateJobId` and nothing changes; otherwise exactly that job is added |
| `Db.Store.GetJobDetails` | db.js:276-290 | yields the job stored under the id, or nothing |
| `Db.Store.RemoveActiveJob` | db.js:292-306 | deletes the job under the id and nothing else; deleting an absent id changes nothing |
| `Db.Store.GetActiveJobsCount` | db.js:350-364 | counts the active jobs |
| `Db.Store.GetTotalCheckedOutItems` | db.js:325-348 | the nested loop yields the sum of the quantities on every active job's items |
| `Db.Store.CheckIssueLines` | db.js:370-385 | the check loop yields exactly `Ledger.CheckStock` on the current inventory |
| `Db.Store.WriteStocks` | db.js:387-390 | the write loop leaves the inventory as `Inventory.ApplyWrites` describes and the other stores unchanged |
| `Db.Store.LogAll` | db.js:394-405 | the logging loop appends exactly the given records, in order |
| `Db.Store.CommitIssue` | db.js:386-421 | once the checks pass, the stores hold the applied stock writes, the log gains the issue records in order, and the job is added exactly when its id is new |
| `Db.Store.IssueItems` | db.js:367-427 | the new state and the result are exactly those of `Ledger.IssueStep` |
| `Db.Store.CheckReturnLine` | db.js:440-447 | the per-line check yields exactly `Ledger.ValidateItem` |
| `Db.Store.CheckReturnLines` | db.js:439-450 | the validation loop yields exactly `Ledger.ValidateReturn`, and on success what reading each line's item returned |
| `Db.Store.Restock` | db.js:453-458 | writes stock read plus returned quantity for the lines before the first missing item, and rejects with `MissingItem` for that item |
| `Db.Store.ReturnItemsToInventory` | db.js:429-494 | the new state and the result are exactly those of `Ledger.ReturnStep` |

## Left out

- `getAllInventoryItems` and `getActiveJobs` (db.js:47-61, 260-274) are not modelled. They list a whole store in key order; no modelled operation depends on them.
- Database opening and schema creation (db.js:7-44) are left out. The constructor starts from the empty stores the schema creates. Storage faults (`onerror` on a request) are not modelled, except the constraint errors for a duplicate name and a duplicate job id.
- Interleaving is not modelled. Each call runs to completion before the next starts, and the writes inside one call are applied in creation order.
- In `Db.Store.ReturnItemsToInventory` the stock writes are computed for every line up to the first missing item and then applied. db.js starts each write as it computes it, before the throw. The stores end in the same state either way.
- Time zones and local time are not modelled. The month bounds are computed in UTC. `toLocaleDateString`, and the parsing of the `YYYY-MM` string into a year and a month number, are not modelled: `GetMonthlyReport` takes the two numbers.
- A return stamps each record with its own `new Date()`. The model uses one `now` for all of a return's records.
- Parsing of the issue date into a timestamp is not modelled. A falsy `date` is `None`.
- Quantities and stocks are unbounded integers. JavaScript numbers, and the non-integer, `NaN` and string values a form could hand over, are not modelled, and neither is key-type coercion.
- Error messages are error kinds without text. A missing item's `TypeError` is the kind `MissingItem`.
- The user interface (`script.js`) is not part of this model.
