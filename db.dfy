/** The warehouse database: one object holding the `inventory`,
    `transactions` and `activeJobs` stores, with a method per database call.
    The stores are updated in place; each call that may fail returns a
    `Result` where db.js settles a promise. */
module Db {
  import opened Records
  import opened Inventory
  import opened Ledger
  import opened Reports
  import Calendar

  class Store {
    /** The `inventory` store, by auto-increment key. */
    var inventory: map<int, Item>
    /** The key the `inventory` key generator hands out next. */
    var nextItemId: int
    /** The `transactions` store, in key order; keys count from 1. */
    var transactions: seq<Txn>
    /** The `activeJobs` store, by `jobId`. */
    var activeJobs: map<string, Job>

    ghost function State(): Ledger.State
      reads this
    {
      Ledger.State(inventory, nextItemId, transactions, activeJobs)
    }

    ghost predicate Valid()
      reads this
    {
      Ledger.Valid(State())
    }

    /** A freshly created database: three empty stores. */
    constructor ()
      ensures Valid()
      ensures inventory == map[] && nextItemId == 1 && transactions == [] && activeJobs == map[]
    {
      inventory := map[];
      nextItemId := 1;
      transactions := [];
      activeJobs := map[];
    }

    // -------------------------------------------------------------------------
    // Inventory

    /** `getInventoryItem`: the item stored under `itemId`, if any. */
    method GetInventoryItem(itemId: int) returns (r: Option<Item>)
      requires Valid()
      ensures r.Some? <==> itemId in inventory
      ensures r.Some? ==> r.value == inventory[itemId] && r.value.id == itemId
    {
      r := if itemId in inventory then Some(inventory[itemId]) else None;
    }

    /** `updateInventoryItem`: overwrite the stock of an existing item; an
        absent id is rejected and nothing changes. */
    method UpdateInventoryItem(itemId: int, newStock: int) returns (r: Result<()>)
      requires Valid()
      modifies this
      ensures Valid()
      ensures r == if itemId in old(inventory) then Ok(()) else Err(ItemNotFound)
      ensures r.Ok? ==> inventory == old(inventory)[itemId := old(inventory)[itemId].(currentStock := newStock)]
      ensures r.Err? ==> inventory == old(inventory)
      ensures nextItemId == old(nextItemId) && transactions == old(transactions) && activeJobs == old(activeJobs)
    {
      if itemId in inventory {
        var item := inventory[itemId];
        inventory := inventory[itemId := item.(currentStock := newStock)];
        r := Ok(());
      } else {
        r := Err(ItemNotFound);
      }
    }

    /** `addNewInventoryItem`: add an item under the next key; the unique
        `name` index rejects a name already in use, and then neither the store
        nor the key generator changes. */
    method AddNewInventoryItem(name: string, initialStock: int, unit: string) returns (r: Result<()>)
      requires Valid()
      modifies this
      ensures Valid()
      ensures r == if name in NameSet(old(inventory)) then Err(DuplicateName) else Ok(())
      ensures r.Ok? ==> inventory == old(inventory)[old(nextItemId) := Item(old(nextItemId), name, initialStock, unit)]
      ensures r.Ok? ==> old(nextItemId) !in old(inventory) && nextItemId == old(nextItemId) + 1
      ensures r.Err? ==> inventory == old(inventory) && nextItemId == old(nextItemId)
      ensures transactions == old(transactions) && activeJobs == old(activeJobs)
    {
      if name in NameSet(inventory) {
        r := Err(DuplicateName);
      } else {
        inventory := inventory[nextItemId := Item(nextItemId, name, initialStock, unit)];
        nextItemId := nextItemId + 1;
        r := Ok(());
      }
    }

    /** `getTotalInventoryItems`: the number of items, which with unique names
        is also the number of names in use. */
    method GetTotalInventoryItems() returns (n: int)
      requires Valid()
      ensures n == |inventory| && n == |NameSet(inventory)|
    {
      n := |inventory|;
      UniqueNamesCount(inventory);
    }

    // -------------------------------------------------------------------------
    // Transactions

    /** `addTransaction`: append a record under the next key. */
    method AddTransaction(jobId: string, personName: string, itemId: int, itemName: string,
                          quantity: int, action: Action, task: string, date: int)
      requires Valid()
      modifies this
      ensures Valid()
      ensures transactions == old(transactions) +
                [Txn(|old(transactions)| + 1, jobId, personName, itemId, itemName, quantity, action, task, date)]
      ensures inventory == old(inventory) && nextItemId == old(nextItemId) && activeJobs == old(activeJobs)
    {
      transactions := transactions +
        [Txn(|transactions| + 1, jobId, personName, itemId, itemName, quantity, action, task, date)];
    }

    /** `getRecentActivity`: walk the date index backwards and keep records
        until `limit` of them are kept; a call without a limit keeps 10. */
    method GetRecentActivity(limit: int := 10) returns (results: seq<Txn>)
      ensures results == Latest(transactions, limit)
    {
      var index := DateIndex(transactions);
      assert |index| == |transactions| by {
        assert |multiset(index)| == |multiset(transactions)|;
      }
      results := [];
      var count := 0;
      var cursor := |index|;
      while cursor > 0 && count < limit
        invariant 0 <= cursor <= |index|
        invariant count == |index| - cursor == |results|
        invariant if limit <= 0 then count == 0 else count <= limit
        invariant forall k :: 0 <= k < count ==> results[k] == index[|index| - 1 - k]
      {
        results := results + [index[cursor - 1]];
        count := count + 1;
        cursor := cursor - 1;
      }
      assert count == if limit <= 0 then 0 else if limit < |transactions| then limit else |transactions|;
      assert results == Backwards(index, count);
    }

    /** `getMonthlyReport`: the records dated within the month, in index
        order, and the totals of their quantities. */
    method GetMonthlyReport(year: int, monthNum: int) returns (report: Report)
      ensures var lo, hi := Calendar.MonthStart(year, monthNum), Calendar.MonthEnd(year, monthNum);
              report.transactions == InRange(DateIndex(transactions), lo, hi)
      ensures var lo, hi := Calendar.MonthStart(year, monthNum), Calendar.MonthEnd(year, monthNum);
              && report.summary.totalIssued == Sum(InRange(transactions, lo, hi), Issue)
              && report.summary.totalReturned == Sum(InRange(transactions, lo, hi), Return)
      ensures report.summary.netChange == report.summary.totalReturned - report.summary.totalIssued
    {
      var startDate := Calendar.MonthStart(year, monthNum);
      var endDate := Calendar.MonthEnd(year, monthNum);
      var txs := InRange(DateIndex(transactions), startDate, endDate);
      var summary := Summarize(txs);
      ReportIgnoresOrder(transactions, startDate, endDate, Issue);
      ReportIgnoresOrder(transactions, startDate, endDate, Return);
      report := Report(summary, txs);
    }

    // -------------------------------------------------------------------------
    // Active jobs

    /** `addActiveJob`: add a job under its `jobId`; a key already in use is
        rejected and nothing changes. */
    method AddActiveJob(jobId: string, personName: string, items: seq<JobItem>, task: string, date: int)
      returns (r: Result<()>)
      requires Valid()
      modifies this
      ensures Valid()
      ensures r == if jobId in old(activeJobs) then Err(DuplicateJobId) else Ok(())
      ensures activeJobs == if r.Ok? then old(activeJobs)[jobId := Job(jobId, personName, items, task, date)]
                            else old(activeJobs)
      ensures inventory == old(inventory) && nextItemId == old(nextItemId) && transactions == old(transactions)
    {
      if jobId in activeJobs {
        r := Err(DuplicateJobId);
      } else {
        activeJobs := activeJobs[jobId := Job(jobId, personName, items, task, date)];
        r := Ok(());
      }
    }

    /** `getJobDetails`: the job stored under `jobId`, if any. */
    method GetJobDetails(jobId: string) returns (r: Option<Job>)
      requires Valid()
      ensures r.Some? <==> jobId in activeJobs
      ensures r.Some? ==> r.value == activeJobs[jobId] && r.value.jobId == jobId
    {
      r := if jobId in activeJobs then Some(activeJobs[jobId]) else None;
    }

    /** `removeActiveJob`: delete the job stored under `jobId`; deleting an
        absent key succeeds and changes nothing. */
    method RemoveActiveJob(jobId: string)
      requires Valid()
      modifies this
      ensures Valid()
      ensures activeJobs == old(activeJobs) - {jobId}
      ensures inventory == old(inventory) && nextItemId == old(nextItemId) && transactions == old(transactions)
    {
      activeJobs := activeJobs - {jobId};
    }

    /** `getActiveJobsCount`: the number of active jobs. */
    method GetActiveJobsCount() returns (n: int)
      ensures n == |activeJobs|
    {
      n := |activeJobs|;
    }

    /** `getTotalCheckedOutItems`: the quantities on every active job's item
        list, added up. */
    method GetTotalCheckedOutItems() returns (total: int)
      ensures total == CheckedOut(activeJobs)
    {
      total := 0;
      var remaining := activeJobs.Keys;
      while remaining != {}
        invariant remaining <= activeJobs.Keys
        invariant total + CheckedOutOver(activeJobs, remaining) == CheckedOut(activeJobs)
        decreases |remaining|
      {
        assert exists k :: k in remaining by {
          if forall k :: k !in remaining { assert false; }
        }
        var key :| key in remaining;
        var items := activeJobs[key].items;
        ghost var before := total;
        var i := 0;
        while i < |items|
          invariant 0 <= i <= |items|
          invariant total == before + JobQuantity(items[..i])
        {
          JobQuantityStep(items, i);
          total := total + items[i].quantity;
          i := i + 1;
        }
        assert items[..i] == items;
        CheckedOutTakes(activeJobs, remaining, key);
        remaining := remaining - {key};
      }
    }

    // -------------------------------------------------------------------------
    // The two operations that change several stores, and their phases

    /** The stock checks of `issueItems`: read each line's item in turn and
        compare its stock with the request; the first line that fails ends
        the checks. */
    method CheckIssueLines(items: seq<IssueRequest>) returns (r: Result<seq<Checked>>)
      requires Valid()
      ensures r == CheckStock(inventory, items)
    {
      var results: seq<Checked> := [];
      var i := 0;
      while i < |items|
        invariant 0 <= i <= |items| && |results| == i
        invariant forall k :: 0 <= k < i ==> Passes(inventory, items[k])
        invariant forall k :: 0 <= k < i ==>
                    results[k] == Checked(items[k].itemId, inventory[items[k].itemId].currentStock, items[k].quantity)
      {
        var item := items[i];
        var dbItem := GetInventoryItem(item.itemId);
        if dbItem.None? {
          CheckStockRejects(inventory, items, i);
          return Err(MissingItem(item.itemId));
        }
        if dbItem.value.currentStock < item.quantity {
          CheckStockRejects(inventory, items, i);
          return Err(InsufficientStock(dbItem.value.name, dbItem.value.currentStock, item.quantity));
        }
        results := results + [Checked(item.itemId, dbItem.value.currentStock, item.quantity)];
        i := i + 1;
      }
      ghost var checked := CheckStock(inventory, items);
      assert checked.Ok? && checked.value == results;
      r := Ok(results);
    }

    /** The stock writes of either operation, one `updateInventoryItem` call
        after another. */
    method WriteStocks(ws: seq<StockWrite>)
      requires Valid() && Targets(inventory, ws)
      modifies this
      ensures Valid()
      ensures inventory == ApplyWrites(old(inventory), ws)
      ensures nextItemId == old(nextItemId) && transactions == old(transactions) && activeJobs == old(activeJobs)
    {
      var j := 0;
      while j < |ws|
        invariant 0 <= j <= |ws|
        invariant Valid()
        invariant inventory == ApplyWrites(old(inventory), ws[..j])
        invariant nextItemId == old(nextItemId) && transactions == old(transactions) && activeJobs == old(activeJobs)
      {
        assert ws[..j + 1][..j] == ws[..j];
        var _ := UpdateInventoryItem(ws[j].itemId, ws[j].newStock);
        j := j + 1;
      }
      assert ws[..j] == ws;
    }

    /** The records of either operation, one `addTransaction` call after
        another; `es` carries the keys the store hands out. */
    method LogAll(es: seq<Txn>)
      requires Valid()
      requires forall k :: 0 <= k < |es| ==> es[k].id == |transactions| + 1 + k
      modifies this
      ensures Valid()
      ensures transactions == old(transactions) + es
      ensures inventory == old(inventory) && nextItemId == old(nextItemId) && activeJobs == old(activeJobs)
    {
      var k := 0;
      while k < |es|
        invariant 0 <= k <= |es|
        invariant Valid()
        invariant transactions == old(transactions) + es[..k]
        invariant inventory == old(inventory) && nextItemId == old(nextItemId) && activeJobs == old(activeJobs)
      {
        var e := es[k];
        assert es[..k + 1] == es[..k] + [e];
        AddTransaction(e.jobId, e.personName, e.itemId, e.itemName, e.quantity, e.action, e.task, e.date);
        k := k + 1;
      }
      assert es[..k] == es;
    }

    /** `issueItems`: check every line against the stock read before any
        write, then write the stocks, log one 'issue' record per line and add
        the job, in that order. */
    method IssueItems(jobId: string, personName: string, items: seq<IssueRequest>, task: string,
                      date: Option<int>, now: int) returns (r: Result<()>)
      requires Valid()
      modifies this
      ensures Valid()
      ensures Step(State(), r) == IssueStep(old(State()), jobId, personName, items, task, date, now)
    {
      var checked := CheckIssueLines(items);
      if checked.Err? {
        return Err(checked.error);
      }
      var results := checked.value;
      var when := IssueDate(date, now);
      r := CommitIssue(jobId, personName, items, task, when, results);
    }

    /** What `issueItems` does once every line has passed: write the stocks,
        log one 'issue' record per line, then add the active job. */
    method CommitIssue(jobId: string, personName: string, items: seq<IssueRequest>, task: string,
                       when: int, results: seq<Checked>) returns (r: Result<()>)
      requires Valid() && Targets(inventory, IssueWrites(results))
      modifies this
      ensures Valid()
      ensures inventory == ApplyWrites(old(inventory), IssueWrites(results))
      ensures transactions == old(transactions) + IssueEntries(|old(transactions)| + 1, jobId, personName, items, task, when)
      ensures r == if jobId in old(activeJobs) then Err(DuplicateJobId) else Ok(())
      ensures activeJobs == if r.Ok? then old(activeJobs)[jobId := Job(jobId, personName, ActiveJobItems(items), task, when)]
                            else old(activeJobs)
      ensures nextItemId == old(nextItemId)
    {
      var stockUpdates := IssueWrites(results);
      WriteStocks(stockUpdates);
      var entries := IssueEntries(|transactions| + 1, jobId, personName, items, task, when);
      LogAll(entries);
      var activeJobItems := ActiveJobItems(items);
      r := AddActiveJob(jobId, personName, activeJobItems, task, when);
    }

    /** `found` holds, line by line, what reading each line's item returns. */
    ghost predicate ReadsOf(rs: seq<ReturnRequest>, found: seq<Option<Item>>)
      reads this
    {
      |found| == |rs| &&
      forall k :: 0 <= k < |rs| ==> found[k] == if rs[k].itemId in inventory then Some(inventory[rs[k].itemId]) else None
    }

    /** The checks of `returnItemsToInventory`: each line's item must be on
        the job and may not return more than its original quantity; every
        line that passes also reads its inventory item. */
    method CheckReturnLines(jobId: string, job: Job, rs: seq<ReturnRequest>)
      returns (r: Result<seq<JobItem>>, inventoryItems: seq<Option<Item>>)
      requires Valid()
      ensures r == ValidateReturn(jobId, job, rs)
      ensures r.Ok? ==> ReadsOf(rs, inventoryItems)
    {
      var jobItems: seq<JobItem> := [];
      inventoryItems := [];
      var i := 0;
      while i < |rs|
        invariant 0 <= i <= |rs| && |jobItems| == i && |inventoryItems| == i
        invariant forall k :: 0 <= k < i ==> ValidateItem(jobId, job, rs[k]) == Ok(jobItems[k])
        invariant forall k :: 0 <= k < i ==>
                    inventoryItems[k] == if rs[k].itemId in inventory then Some(inventory[rs[k].itemId]) else None
      {
        var returnItem := rs[i];
        var jobItem := CheckReturnLine(jobId, job, returnItem);
        if jobItem.Err? {
          ValidateReturnRejects(jobId, job, rs, i);
          return Err(jobItem.error), inventoryItems;
        }
        var dbItem := GetInventoryItem(returnItem.itemId);
        jobItems := jobItems + [jobItem.value];
        inventoryItems := inventoryItems + [dbItem];
        i := i + 1;
      }
      ValidateReturnAccepts(jobId, job, rs, jobItems);
      r := Ok(jobItems);
    }

    /** The check of one return line: find the line's item on the job, then
        refuse a line that returns more than its original quantity. */
    static method CheckReturnLine(jobId: string, job: Job, returnItem: ReturnRequest) returns (r: Result<JobItem>)
      ensures r == ValidateItem(jobId, job, returnItem)
    {
      var jobItem := FindJobItem(job.items, returnItem.itemId);
      if jobItem.None? {
        return Err(ItemNotOnJob(returnItem.itemId, jobId));
      }
      if returnItem.returnedQty > returnItem.originalQty {
        return Err(ReturnExceedsIssued(jobItem.value.name));
      }
      r := Ok(jobItem.value);
    }

    /** The stock writes of `returnItemsToInventory`: each line writes the
        stock read during the checks plus what it returns, until a line whose
        item was not there breaks the writes off. */
    method Restock(rs: seq<ReturnRequest>, inventoryItems: seq<Option<Item>>) returns (r: Result<()>)
      requires Valid() && ReadsOf(rs, inventoryItems)
      modifies this
      ensures Valid()
      ensures var n := FirstMissing(old(inventory), rs);
              && inventory == ApplyWrites(old(inventory), ReturnWrites(old(inventory), rs[..n]))
              && r == if n < |rs| then Err(MissingItem(rs[n].itemId)) else Ok(())
      ensures nextItemId == old(nextItemId) && transactions == old(transactions) && activeJobs == old(activeJobs)
    {
      var updates: seq<StockWrite> := [];
      var j := 0;
      while j < |rs| && inventoryItems[j].Some?
        invariant 0 <= j <= |rs| && |updates| == j
        invariant forall k :: 0 <= k < j ==> rs[k].itemId in inventory
        invariant forall k :: 0 <= k < j ==>
                    updates[k] == StockWrite(rs[k].itemId, inventory[rs[k].itemId].currentStock + rs[k].returnedQty)
      {
        updates := updates + [StockWrite(rs[j].itemId, inventoryItems[j].value.currentStock + rs[j].returnedQty)];
        j := j + 1;
      }
      FirstMissingAt(inventory, rs, j);
      assert updates == ReturnWrites(inventory, rs[..j]);
      WriteStocks(updates);
      r := if j < |rs| then Err(MissingItem(rs[j].itemId)) else Ok(());
    }

    /** `returnItemsToInventory`: load the job and check every line; then
        write the stocks, log one 'return' record per line and delete the job
        when every line returns its original quantity. */
    method ReturnItemsToInventory(jobId: string, returnItems: seq<ReturnRequest>, now: int)
      returns (r: Result<()>)
      requires Valid()
      modifies this
      ensures Valid()
      ensures Step(State(), r) == ReturnStep(old(State()), jobId, returnItems, now)
    {
      var found := GetJobDetails(jobId);
      if found.None? {
        return Err(JobNotFound);
      }
      var job := found.value;
      var validated, inventoryItems := CheckReturnLines(jobId, job, returnItems);
      if validated.Err? {
        return Err(validated.error);
      }
      var jobItems := validated.value;
      r := Restock(returnItems, inventoryItems);
      if r.Err? {
        return;
      }
      var entries := ReturnEntries(|transactions| + 1, jobId, job, returnItems, jobItems, now);
      LogAll(entries);
      var allReturned := AllReturned(returnItems);
      if allReturned {
        RemoveActiveJob(jobId);
      }
    }
  }

  /** The success handler of `getMonthlyReport`: one pass over the records
      in range adds each quantity to the issued or the returned total and
      moves the net change down or up by it. */
  method Summarize(txs: seq<Txn>) returns (summary: Summary)
    ensures summary.totalIssued == Sum(txs, Issue) && summary.totalReturned == Sum(txs, Return)
    ensures summary.netChange == summary.totalReturned - summary.totalIssued
  {
    var totalIssued, totalReturned, netChange := 0, 0, 0;
    var i := 0;
    while i < |txs|
      invariant 0 <= i <= |txs|
      invariant totalIssued == Sum(txs[..i], Issue) && totalReturned == Sum(txs[..i], Return)
      invariant netChange == totalReturned - totalIssued
    {
      var t := txs[i];
      SumStep(txs, i);
      if t.action == Issue {
        totalIssued := totalIssued + t.quantity;
        netChange := netChange - t.quantity;
      } else {
        totalReturned := totalReturned + t.quantity;
        netChange := netChange + t.quantity;
      }
      i := i + 1;
    }
    assert txs[..i] == txs;
    summary := Summary(totalIssued, totalReturned, netChange);
  }
}
