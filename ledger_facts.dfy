/** What `issueItems` and `returnItemsToInventory` guarantee, and where they
    surprise: rejections leave the stores alone, successes move stock by the
    requested quantities and log one record per line, and issuing a set of
    items and then returning all of them restores the inventory. */
module LedgerFacts {
  import opened Records
  import opened Inventory
  import opened Ledger

  /** The item ids an issue request names. */
  function IssuedIds(items: seq<IssueRequest>): set<int> {
    set k | 0 <= k < |items| :: items[k].itemId
  }

  /** The item ids a return request names. */
  function ReturnedIds(rs: seq<ReturnRequest>): set<int> {
    set k | 0 <= k < |rs| :: rs[k].itemId
  }

  /** No item id appears on two lines of an issue request. */
  predicate DistinctIssueIds(items: seq<IssueRequest>) {
    forall i, j :: 0 <= i < j < |items| ==> items[i].itemId != items[j].itemId
  }

  /** No item id appears on two lines of a return request. */
  predicate DistinctReturnIds(rs: seq<ReturnRequest>) {
    forall i, j :: 0 <= i < j < |rs| ==> rs[i].itemId != rs[j].itemId
  }

  /** `log` is `before` followed by `entries` and nothing else. */
  predicate Extends(log: seq<Txn>, before: seq<Txn>, entries: seq<Txn>) {
    |log| == |before| + |entries| && log[..|before|] == before &&
    forall k :: 0 <= k < |entries| ==> log[|before| + k] == entries[k]
  }

  // ---------------------------------------------------------------------------
  // issueItems

  /** A line that fails its check rejects the whole issue before any write:
      no stock changes, nothing is logged, no job is created, and the error is
      that of the first failing line (a missing item or a short one). */
  lemma IssueRejected(s: State, jobId: string, personName: string, items: seq<IssueRequest>,
                      task: string, date: Option<int>, now: int, i: int)
    requires 0 <= i < |items| && !Passes(s.inventory, items[i])
    ensures IssueStep(s, jobId, personName, items, task, date, now).after == s
    ensures exists k :: 0 <= k <= i && FirstFailure(s.inventory, items, k) &&
                        CheckItem(s.inventory, items[k]).Err? &&
                        IssueStep(s, jobId, personName, items, task, date, now).result == Err(CheckItem(s.inventory, items[k]).error)
  {
    var r := CheckStock(s.inventory, items);
    assert r.Err?;
    var k :| 0 <= k < |items| && FirstFailure(s.inventory, items, k) && CheckItem(s.inventory, items[k]) == Err(r.error);
    assert k <= i;
  }

  /** When no later line names the same item, a line's write lands: its item
      ends at the stock the check read minus the line's quantity. With an item
      named twice only the last line's write survives. */
  lemma IssueLastLineWins(s: State, jobId: string, personName: string, items: seq<IssueRequest>,
                          task: string, date: Option<int>, now: int, k: int)
    requires AllPass(s.inventory, items)
    requires 0 <= k < |items| && forall j :: k < j < |items| ==> items[j].itemId != items[k].itemId
    ensures var id := items[k].itemId;
            IssueStep(s, jobId, personName, items, task, date, now).after.inventory[id] ==
              s.inventory[id].(currentStock := s.inventory[id].currentStock - items[k].quantity)
  {
    var ws := IssueWrites(CheckStock(s.inventory, items).value);
    IssueAppliesWrites(s, jobId, personName, items, task, date, now);
    IssueWriteOfLine(s.inventory, items, k);
    LastWriteLands(s.inventory, ws, k);
  }

  /** An accepted check turns into one stock write per line, applied in order. */
  lemma IssueAppliesWrites(s: State, jobId: string, personName: string, items: seq<IssueRequest>,
                           task: string, date: Option<int>, now: int)
    requires AllPass(s.inventory, items)
    ensures CheckStock(s.inventory, items).Ok?
    ensures IssueStep(s, jobId, personName, items, task, date, now).after.inventory ==
              ApplyWrites(s.inventory, IssueWrites(CheckStock(s.inventory, items).value))
  {
  }

  /** Line `k`'s write sets its item's stock to the stock the check read minus
      the line's quantity. */
  lemma IssueWriteOfLine(inv: map<int, Item>, items: seq<IssueRequest>, k: int)
    requires AllPass(inv, items) && 0 <= k < |items|
    ensures CheckStock(inv, items).Ok?
    ensures var ws := IssueWrites(CheckStock(inv, items).value);
            Targets(inv, ws) && ws[k] == StockWrite(items[k].itemId, inv[items[k].itemId].currentStock - items[k].quantity)
  {
  }

  /** Items an issue does not name keep their records. */
  lemma IssueKeepsOthers(s: State, jobId: string, personName: string, items: seq<IssueRequest>,
                         task: string, date: Option<int>, now: int, id: int)
    requires id in s.inventory && id !in IssuedIds(items)
    ensures IssueStep(s, jobId, personName, items, task, date, now).after.inventory[id] == s.inventory[id]
  {
    var r := CheckStock(s.inventory, items);
    if r.Ok? {
      var ws := IssueWrites(r.value);
      forall i | 0 <= i < |ws| ensures ws[i].itemId != id {
        assert items[i].itemId in IssuedIds(items);
      }
      UnwrittenItemKept(s.inventory, ws, id);
    }
  }

  /** A successful issue of distinct items: every named item loses exactly
      the requested quantity and every other item is untouched. */
  lemma IssueSucceeds(s: State, jobId: string, personName: string, items: seq<IssueRequest>,
                      task: string, date: Option<int>, now: int)
    requires AllPass(s.inventory, items) && DistinctIssueIds(items) && jobId !in s.jobs
    ensures var st := IssueStep(s, jobId, personName, items, task, date, now);
            && st.result == Ok(())
            && st.after.inventory.Keys == s.inventory.Keys
            && (forall k :: 0 <= k < |items| ==>
                  st.after.inventory[items[k].itemId] ==
                    s.inventory[items[k].itemId].(currentStock := s.inventory[items[k].itemId].currentStock - items[k].quantity))
            && (forall id :: id in s.inventory && id !in IssuedIds(items) ==> st.after.inventory[id] == s.inventory[id])
            && st.after.nextItemId == s.nextItemId
  {
    var st := IssueStep(s, jobId, personName, items, task, date, now);
    forall k | 0 <= k < |items|
      ensures st.after.inventory[items[k].itemId] ==
                s.inventory[items[k].itemId].(currentStock := s.inventory[items[k].itemId].currentStock - items[k].quantity)
    {
      IssueLastLineWins(s, jobId, personName, items, task, date, now, k);
    }
    forall id | id in s.inventory && id !in IssuedIds(items) ensures st.after.inventory[id] == s.inventory[id] {
      IssueKeepsOthers(s, jobId, personName, items, task, date, now, id);
    }
  }

  /** What a successful issue records: one 'issue' record per line, in
      order, with the given date or else the current time, and one new job
      holding every line at its full quantity with no unit; the other jobs
      are kept. */
  lemma IssueRecords(s: State, jobId: string, personName: string, items: seq<IssueRequest>,
                     task: string, date: Option<int>, now: int)
    requires AllPass(s.inventory, items) && jobId !in s.jobs
    ensures var st := IssueStep(s, jobId, personName, items, task, date, now);
            var when := if date.Some? then date.value else now;
            Extends(st.after.log, s.log, seq(|items|, k requires 0 <= k < |items| =>
              Txn(|s.log| + 1 + k, jobId, personName, items[k].itemId, items[k].itemName, items[k].quantity, Issue, task, when)))
    ensures var st := IssueStep(s, jobId, personName, items, task, date, now);
            var when := if date.Some? then date.value else now;
            && st.after.jobs.Keys == s.jobs.Keys + {jobId}
            && (forall key :: key in s.jobs ==> st.after.jobs[key] == s.jobs[key])
            && st.after.jobs[jobId].personName == personName && st.after.jobs[jobId].task == task
            && st.after.jobs[jobId].date == when
            && |st.after.jobs[jobId].items| == |items|
            && (forall k :: 0 <= k < |items| ==>
                  st.after.jobs[jobId].items[k] == JobItem(items[k].itemId, items[k].itemName, items[k].quantity, ""))
  {
    var st := IssueStep(s, jobId, personName, items, task, date, now);
    assert st.after.log[..|s.log|] == s.log;
  }

  /** A taken job id is only found out at the last write: the promise
      rejects, yet the stock writes and the 'issue' records are already made,
      exactly as a successful issue would have made them; only the job store
      is spared. */
  lemma IssueDuplicateJob(s: State, jobId: string, personName: string, items: seq<IssueRequest>,
                          task: string, date: Option<int>, now: int)
    requires AllPass(s.inventory, items) && jobId in s.jobs
    ensures var st := IssueStep(s, jobId, personName, items, task, date, now);
            var spared := IssueStep(s.(jobs := s.jobs - {jobId}), jobId, personName, items, task, date, now);
            && st.result == Err(DuplicateJobId)
            && spared.result == Ok(())
            && st.after == spared.after.(jobs := s.jobs)
            && |st.after.log| == |s.log| + |items|
  {
  }

  /** The stock check compares each line with the stock alone, never the sum
      of the lines naming the same item: ten in stock and two lines of six
      both pass, twelve are logged as issued, and the stock ends at four. */
  lemma IssueSameItemTwice(now: int)
    ensures var cable := Item(1, "Cable", 10, "m");
            var s := State(map[1 := cable], 2, [], map[]);
            var items := [IssueRequest(1, "Cable", 6), IssueRequest(1, "Cable", 6)];
            var st := IssueStep(s, "J1", "Ann", items, "Wiring", None, now);
            && st.result == Ok(())
            && st.after.inventory[1].currentStock == 4
            && |st.after.log| == 2 && st.after.log[0].quantity + st.after.log[1].quantity == 12
  {
    var cable := Item(1, "Cable", 10, "m");
    var s := State(map[1 := cable], 2, [], map[]);
    var items := [IssueRequest(1, "Cable", 6), IssueRequest(1, "Cable", 6)];
    IssueLastLineWins(s, "J1", "Ann", items, "Wiring", None, now, 1);
  }

  /** The rejection the check is for: with five of A and five of B in
      stock, asking for six of A and two of B is refused on A and nothing
      changes. */
  lemma IssueShortOnFirstLine(now: int)
    ensures var s := State(map[1 := Item(1, "A", 5, "pcs"), 2 := Item(2, "B", 5, "pcs")], 3, [], map[]);
            var items := [IssueRequest(1, "A", 6), IssueRequest(2, "B", 2)];
            IssueStep(s, "J1", "Ann", items, "Repair", None, now) == Step(s, Err(InsufficientStock("A", 5, 6)))
  {
    var s := State(map[1 := Item(1, "A", 5, "pcs"), 2 := Item(2, "B", 5, "pcs")], 3, [], map[]);
    var items := [IssueRequest(1, "A", 6), IssueRequest(2, "B", 2)];
    IssueRejected(s, "J1", "Ann", items, "Repair", None, now, 0);
  }

  /** An issue with no lines writes nothing, logs nothing and still creates a
      job, with an empty item list. */
  lemma IssueEmptyCreatesEmptyJob(s: State, jobId: string, personName: string, task: string,
                                  date: Option<int>, now: int)
    requires jobId !in s.jobs
    ensures var st := IssueStep(s, jobId, personName, [], task, date, now);
            && st.result == Ok(())
            && st.after.inventory == s.inventory && st.after.log == s.log
            && jobId in st.after.jobs && st.after.jobs[jobId].items == []
  {
  }

  /** Stock writes, records keyed on from the log's end and jobs stored under
      their own ids keep every guarantee of the stores' keys and indexes. */
  lemma ValidAfter(s: State, t: State, ws: seq<StockWrite>, es: seq<Txn>)
    requires Valid(s) && Targets(s.inventory, ws)
    requires t.nextItemId == s.nextItemId && t.inventory == ApplyWrites(s.inventory, ws)
    requires t.log == s.log + es && forall k :: 0 <= k < |es| ==> es[k].id == |s.log| + 1 + k
    requires forall k :: k in t.jobs ==> t.jobs[k].jobId == k
    ensures Valid(t)
  {
    WritesKeepNames(s.inventory, ws);
    forall i | 0 <= i < |t.log| ensures t.log[i].id == i + 1 {
      if i >= |s.log| {
        assert t.log[i] == es[i - |s.log|];
      }
    }
  }

  /** An issue keeps every guarantee of the stores' keys and indexes. */
  lemma IssueKeepsValid(s: State, jobId: string, personName: string, items: seq<IssueRequest>,
                        task: string, date: Option<int>, now: int)
    requires Valid(s)
    ensures Valid(IssueStep(s, jobId, personName, items, task, date, now).after)
  {
    var r := CheckStock(s.inventory, items);
    if r.Ok? {
      var st := IssueStep(s, jobId, personName, items, task, date, now);
      var es := IssueEntries(|s.log| + 1, jobId, personName, items, task, IssueDate(date, now));
      ValidAfter(s, st.after, IssueWrites(r.value), es);
    }
  }

  // ---------------------------------------------------------------------------
  // returnItemsToInventory

  /** A return for a job that is not active is rejected and nothing changes. */
  lemma ReturnJobNotFound(s: State, jobId: string, rs: seq<ReturnRequest>, now: int)
    requires jobId !in s.jobs
    ensures ReturnStep(s, jobId, rs, now) == Step(s, Err(JobNotFound))
  {
  }

  /** A line whose item is not on the job, or that returns more than its
      original quantity, rejects the return before any write, with the error
      of the first such line. */
  lemma ReturnRejected(s: State, jobId: string, rs: seq<ReturnRequest>, now: int, i: int)
    requires jobId in s.jobs && 0 <= i < |rs| && !Acceptable(s.jobs[jobId], rs[i])
    ensures ReturnStep(s, jobId, rs, now).after == s
    ensures exists k :: 0 <= k <= i && FirstRejected(s.jobs[jobId], rs, k) &&
                        ValidateItem(jobId, s.jobs[jobId], rs[k]).Err? &&
                        ReturnStep(s, jobId, rs, now).result == Err(ValidateItem(jobId, s.jobs[jobId], rs[k]).error)
  {
    var job := s.jobs[jobId];
    var r := ValidateReturn(jobId, job, rs);
    assert r.Err?;
    var k :| 0 <= k < |rs| && FirstRejected(job, rs, k) && ValidateItem(jobId, job, rs[k]) == Err(r.error);
    assert k <= i;
  }

  /** When every item is in the inventory and no later line names the same
      item, a line's write lands: its item ends at the stock read plus what
      the line returns. */
  lemma ReturnLastLineWins(s: State, jobId: string, rs: seq<ReturnRequest>, now: int, k: int)
    requires jobId in s.jobs && AllAcceptable(s.jobs[jobId], rs)
    requires forall j :: 0 <= j < |rs| ==> rs[j].itemId in s.inventory
    requires 0 <= k < |rs| && forall j :: k < j < |rs| ==> rs[j].itemId != rs[k].itemId
    ensures var id := rs[k].itemId;
            ReturnStep(s, jobId, rs, now).after.inventory[id] ==
              s.inventory[id].(currentStock := s.inventory[id].currentStock + rs[k].returnedQty)
  {
    FirstMissingAt(s.inventory, rs, |rs|);
    assert rs[..|rs|] == rs;
    var ws := ReturnWrites(s.inventory, rs);
    assert ReturnStep(s, jobId, rs, now).after.inventory == ApplyWrites(s.inventory, ws);
    LastWriteLands(s.inventory, ws, k);
  }

  /** Items a return does not name keep their records. */
  lemma ReturnKeepsOthers(s: State, jobId: string, rs: seq<ReturnRequest>, now: int, id: int)
    requires id in s.inventory && id !in ReturnedIds(rs)
    ensures ReturnStep(s, jobId, rs, now).after.inventory[id] == s.inventory[id]
  {
    if jobId in s.jobs && ValidateReturn(jobId, s.jobs[jobId], rs).Ok? {
      var n := FirstMissing(s.inventory, rs);
      var ws := ReturnWrites(s.inventory, rs[..n]);
      forall i | 0 <= i < |ws| ensures ws[i].itemId != id {
        assert rs[i].itemId in ReturnedIds(rs);
      }
      UnwrittenItemKept(s.inventory, ws, id);
    }
  }

  /** A successful return of distinct items: every named item gains exactly
      the returned quantity and every other item is untouched. */
  lemma ReturnSucceeds(s: State, jobId: string, rs: seq<ReturnRequest>, now: int)
    requires jobId in s.jobs && AllAcceptable(s.jobs[jobId], rs) && DistinctReturnIds(rs)
    requires forall k :: 0 <= k < |rs| ==> rs[k].itemId in s.inventory
    ensures var st := ReturnStep(s, jobId, rs, now);
            && st.result == Ok(())
            && st.after.inventory.Keys == s.inventory.Keys
            && (forall k :: 0 <= k < |rs| ==>
                  st.after.inventory[rs[k].itemId] ==
                    s.inventory[rs[k].itemId].(currentStock := s.inventory[rs[k].itemId].currentStock + rs[k].returnedQty))
            && (forall id :: id in s.inventory && id !in ReturnedIds(rs) ==> st.after.inventory[id] == s.inventory[id])
            && st.after.nextItemId == s.nextItemId
  {
    var st := ReturnStep(s, jobId, rs, now);
    FirstMissingAt(s.inventory, rs, |rs|);
    assert rs[..|rs|] == rs;
    forall k | 0 <= k < |rs|
      ensures st.after.inventory[rs[k].itemId] ==
                s.inventory[rs[k].itemId].(currentStock := s.inventory[rs[k].itemId].currentStock + rs[k].returnedQty)
    {
      ReturnLastLineWins(s, jobId, rs, now, k);
    }
    forall id | id in s.inventory && id !in ReturnedIds(rs) ensures st.after.inventory[id] == s.inventory[id] {
      ReturnKeepsOthers(s, jobId, rs, now, id);
    }
  }

  /** What a successful return records: one 'return' record per line, in
      order, with the job's person and task and the job entry's item name;
      and the job is deleted exactly when every line returns its original
      quantity, and otherwise stays exactly as it was. */
  lemma ReturnRecords(s: State, jobId: string, rs: seq<ReturnRequest>, now: int)
    requires jobId in s.jobs && AllAcceptable(s.jobs[jobId], rs)
    requires forall k :: 0 <= k < |rs| ==> rs[k].itemId in s.inventory
    ensures var st := ReturnStep(s, jobId, rs, now);
            var job := s.jobs[jobId];
            Extends(st.after.log, s.log, seq(|rs|, k requires 0 <= k < |rs| =>
              Txn(|s.log| + 1 + k, jobId, job.personName, rs[k].itemId,
                  if FindJobItem(job.items, rs[k].itemId).Some? then FindJobItem(job.items, rs[k].itemId).value.name else "",
                  rs[k].returnedQty, Return, job.task, now)))
    ensures var st := ReturnStep(s, jobId, rs, now);
            && (jobId in st.after.jobs <==> !AllReturned(rs))
            && (jobId in st.after.jobs ==> st.after.jobs[jobId] == s.jobs[jobId])
            && (forall key :: key in s.jobs && key != jobId ==> key in st.after.jobs && st.after.jobs[key] == s.jobs[key])
            && st.after.jobs.Keys <= s.jobs.Keys
  {
    var st := ReturnStep(s, jobId, rs, now);
    var job := s.jobs[jobId];
    FirstMissingAt(s.inventory, rs, |rs|);
    var found := ValidateReturn(jobId, job, rs).value;
    forall k | 0 <= k < |rs| ensures found[k].name == FindJobItem(job.items, rs[k].itemId).value.name {
      assert Some(found[k]) == FindJobItem(job.items, rs[k].itemId);
    }
    assert st.after.log[..|s.log|] == s.log;
  }

  /** Restocking the lines before `n`: an item none of them names keeps its
      record, and a line no later one overrides adds its returned quantity to
      its item's stock. */
  lemma RestockPrefix(inv: map<int, Item>, rs: seq<ReturnRequest>, n: int, after: map<int, Item>)
    requires 0 <= n <= |rs| && forall k :: 0 <= k < n ==> rs[k].itemId in inv
    requires after == ApplyWrites(inv, ReturnWrites(inv, rs[..n]))
    ensures forall id :: id in inv && id !in ReturnedIds(rs[..n]) ==> after[id] == inv[id]
    ensures (forall k :: 0 <= k < n && (forall j :: k < j < n ==> rs[j].itemId != rs[k].itemId) ==>
                  after[rs[k].itemId] == inv[rs[k].itemId].(currentStock := inv[rs[k].itemId].currentStock + rs[k].returnedQty))
  {
    var ws := ReturnWrites(inv, rs[..n]);
    forall k | 0 <= k < n && (forall j :: k < j < n ==> rs[j].itemId != rs[k].itemId)
      ensures ApplyWrites(inv, ws)[rs[k].itemId] ==
        inv[rs[k].itemId].(currentStock := inv[rs[k].itemId].currentStock + rs[k].returnedQty)
    {
      LastWriteLands(inv, ws, k);
    }
    forall id | id in inv && id !in ReturnedIds(rs[..n])
      ensures ApplyWrites(inv, ws)[id] == inv[id]
    {
      forall i | 0 <= i < |ws| ensures ws[i].itemId != id {
        assert rs[..n][i].itemId in ReturnedIds(rs[..n]);
      }
      UnwrittenItemKept(inv, ws, id);
    }
  }

  /** A line whose item the inventory lacks passes the checks but breaks off
      the stock writes: the lines before it are restocked, nothing is logged
      and the job stays. */
  lemma ReturnMissingItem(s: State, jobId: string, rs: seq<ReturnRequest>, now: int, n: int)
    requires jobId in s.jobs && AllAcceptable(s.jobs[jobId], rs)
    requires 0 <= n < |rs| && rs[n].itemId !in s.inventory
    requires forall k :: 0 <= k < n ==> rs[k].itemId in s.inventory
    ensures var st := ReturnStep(s, jobId, rs, now);
            && st.result == Err(MissingItem(rs[n].itemId))
            && st.after.log == s.log && st.after.jobs == s.jobs
            && st.after.inventory.Keys == s.inventory.Keys
            && (forall id :: id in s.inventory && id !in ReturnedIds(rs[..n]) ==> st.after.inventory[id] == s.inventory[id])
            && (forall k :: 0 <= k < n && (forall j :: k < j < n ==> rs[j].itemId != rs[k].itemId) ==>
                  st.after.inventory[rs[k].itemId] ==
                    s.inventory[rs[k].itemId].(currentStock := s.inventory[rs[k].itemId].currentStock + rs[k].returnedQty))
  {
    ReturnBreaksOff(s, jobId, rs, now, n);
    BrokenOffStep(s, rs, n, ReturnStep(s, jobId, rs, now));
  }

  /** The step a return broken off at line `n` takes: the error names the
      missing item, the log and the jobs stay, and the inventory holds the
      restocks of the lines before `n`. */
  lemma BrokenOffStep(s: State, rs: seq<ReturnRequest>, n: int, st: Step)
    requires 0 <= n < |rs| && forall k :: 0 <= k < n ==> rs[k].itemId in s.inventory
    requires st == Step(s.(inventory := ApplyWrites(s.inventory, ReturnWrites(s.inventory, rs[..n]))), Err(MissingItem(rs[n].itemId)))
    ensures && st.result == Err(MissingItem(rs[n].itemId))
            && st.after.log == s.log && st.after.jobs == s.jobs
            && st.after.inventory.Keys == s.inventory.Keys
            && (forall id :: id in s.inventory && id !in ReturnedIds(rs[..n]) ==> st.after.inventory[id] == s.inventory[id])
            && (forall k :: 0 <= k < n && (forall j :: k < j < n ==> rs[j].itemId != rs[k].itemId) ==>
                  st.after.inventory[rs[k].itemId] ==
                    s.inventory[rs[k].itemId].(currentStock := s.inventory[rs[k].itemId].currentStock + rs[k].returnedQty))
  {
    RestockPrefix(s.inventory, rs, n, st.after.inventory);
  }

  /** A return that meets a missing item at line `n` keeps the stock writes
      of the lines before it and changes nothing else. */
  lemma ReturnBreaksOff(s: State, jobId: string, rs: seq<ReturnRequest>, now: int, n: int)
    requires jobId in s.jobs && AllAcceptable(s.jobs[jobId], rs)
    requires 0 <= n < |rs| && rs[n].itemId !in s.inventory
    requires forall k :: 0 <= k < n ==> rs[k].itemId in s.inventory
    ensures ReturnStep(s, jobId, rs, now) ==
              Step(s.(inventory := ApplyWrites(s.inventory, ReturnWrites(s.inventory, rs[..n]))), Err(MissingItem(rs[n].itemId)))
  {
    FirstMissingAt(s.inventory, rs, n);
  }

  /** A return with no lines writes and logs nothing, and deletes the job:
      every line of an empty list returns its original quantity. */
  lemma ReturnEmptyRemovesJob(s: State, jobId: string, now: int)
    requires jobId in s.jobs
    ensures var st := ReturnStep(s, jobId, [], now);
            && st.result == Ok(())
            && st.after.inventory == s.inventory && st.after.log == s.log
            && st.after.jobs == s.jobs - {jobId}
  {
  }

  /** `originalQty` comes from the caller and is never compared with what
      the job recorded: any quantity, however large and of either sign,
      returned as its own original quantity is accepted, restocked, and
      closes the job. */
  lemma ReturnTrustsOriginalQty(s: State, jobId: string, itemId: int, qty: int, now: int)
    requires jobId in s.jobs && FindJobItem(s.jobs[jobId].items, itemId).Some? && itemId in s.inventory
    ensures var st := ReturnStep(s, jobId, [ReturnRequest(itemId, qty, qty)], now);
            && st.result == Ok(())
            && st.after.inventory[itemId].currentStock == s.inventory[itemId].currentStock + qty
            && jobId !in st.after.jobs
  {
    var rs := [ReturnRequest(itemId, qty, qty)];
    ReturnLastLineWins(s, jobId, rs, now, 0);
  }

  /** A partial return restocks the warehouse but leaves the job's recorded
      quantities as they were, so stock plus checked-out quantity grows: ten
      bolts, four issued and one returned, count eleven afterwards. */
  lemma PartialReturnOvercounts(now: int)
    ensures var s := State(map[1 := Item(1, "Bolt", 10, "pcs")], 2, [], map[]);
            var s1 := IssueStep(s, "J1", "Alice", [IssueRequest(1, "Bolt", 4)], "Repair", None, now).after;
            s1.inventory[1].currentStock + CheckedOut(s1.jobs) == 10
    ensures var s := State(map[1 := Item(1, "Bolt", 10, "pcs")], 2, [], map[]);
            var s1 := IssueStep(s, "J1", "Alice", [IssueRequest(1, "Bolt", 4)], "Repair", None, now).after;
            var s2 := ReturnStep(s1, "J1", [ReturnRequest(1, 1, 4)], now).after;
            s2.inventory[1].currentStock + CheckedOut(s2.jobs) == 11
  {
    var s := State(map[1 := Item(1, "Bolt", 10, "pcs")], 2, [], map[]);
    var items := [IssueRequest(1, "Bolt", 4)];
    var s1 := IssueStep(s, "J1", "Alice", items, "Repair", None, now).after;
    IssueLastLineWins(s, "J1", "Alice", items, "Repair", None, now, 0);
    var job := s1.jobs["J1"];
    assert s1.jobs == map["J1" := job];
    assert job.items == [JobItem(1, "Bolt", 4, "")];
    assert JobQuantity(job.items) == 4;
    assert s1.jobs.Keys == {"J1"};
    CheckedOutTakes(s1.jobs, {"J1"}, "J1");
    assert {"J1"} - {"J1"} == {};
    assert CheckedOutOver(s1.jobs, {}) == 0;
    var rs := [ReturnRequest(1, 1, 4)];
    assert Acceptable(job, rs[0]);
    ReturnLastLineWins(s1, "J1", rs, now, 0);
    var s2 := ReturnStep(s1, "J1", rs, now).after;
    assert s1.inventory[1].currentStock == 6;
    assert s2.inventory[1].currentStock == 7;
    assert s2.jobs == s1.jobs;
  }

  /** A return keeps every guarantee of the stores' keys and indexes. */
  lemma ReturnKeepsValid(s: State, jobId: string, rs: seq<ReturnRequest>, now: int)
    requires Valid(s)
    ensures Valid(ReturnStep(s, jobId, rs, now).after)
  {
    if jobId in s.jobs && ValidateReturn(jobId, s.jobs[jobId], rs).Ok? {
      var st := ReturnStep(s, jobId, rs, now);
      var found := ValidateReturn(jobId, s.jobs[jobId], rs).value;
      var n := FirstMissing(s.inventory, rs);
      var es := if n < |rs| then [] else ReturnEntries(|s.log| + 1, jobId, s.jobs[jobId], rs, found, now);
      ValidAfter(s, st.after, ReturnWrites(s.inventory, rs[..n]), es);
    }
  }

  // ---------------------------------------------------------------------------
  // Issue, then return everything

  /** The return request the return screen builds for a job issued with
      `items`: every line back in full. */
  function FullReturn(items: seq<IssueRequest>): (rs: seq<ReturnRequest>)
    ensures |rs| == |items|
    ensures AllReturned(rs)
    ensures forall k :: 0 <= k < |rs| ==> rs[k].itemId == items[k].itemId && rs[k].returnedQty == items[k].quantity
  {
    seq(|items|, k requires 0 <= k < |items| => ReturnRequest(items[k].itemId, items[k].quantity, items[k].quantity))
  }

  /** A full return names the issued items and passes the checks of the job
      the issue created. */
  lemma FullReturnAccepted(job: Job, items: seq<IssueRequest>)
    requires |job.items| == |items| && forall k :: 0 <= k < |items| ==> job.items[k].id == items[k].itemId
    requires DistinctIssueIds(items)
    ensures AllAcceptable(job, FullReturn(items)) && DistinctReturnIds(FullReturn(items))
    ensures ReturnedIds(FullReturn(items)) == IssuedIds(items)
  {
    var rs := FullReturn(items);
    forall k | 0 <= k < |rs| ensures Acceptable(job, rs[k]) {
      assert job.items[k].id == rs[k].itemId;
    }
    forall id | id in IssuedIds(items) ensures id in ReturnedIds(rs) {
      var k :| 0 <= k < |items| && items[k].itemId == id;
      assert rs[k].itemId == id;
    }
  }

  /** Taking each line's quantity off its item and then putting it back
      leaves the inventory as it was. */
  lemma StockRoundTrip(inv0: map<int, Item>, inv1: map<int, Item>, inv2: map<int, Item>, items: seq<IssueRequest>)
    requires inv1.Keys == inv0.Keys && inv2.Keys == inv1.Keys
    requires forall k :: 0 <= k < |items| ==> items[k].itemId in inv0
    requires forall k :: 0 <= k < |items| ==>
               inv1[items[k].itemId] == inv0[items[k].itemId].(currentStock := inv0[items[k].itemId].currentStock - items[k].quantity)
    requires forall k :: 0 <= k < |items| ==>
               inv2[items[k].itemId] == inv1[items[k].itemId].(currentStock := inv1[items[k].itemId].currentStock + items[k].quantity)
    requires forall id :: id in inv0 && id !in IssuedIds(items) ==> inv1[id] == inv0[id] && inv2[id] == inv1[id]
    ensures inv2 == inv0
  {
    forall id | id in inv0 ensures inv2[id] == inv0[id] {
      if id in IssuedIds(items) {
        var k :| 0 <= k < |items| && items[k].itemId == id;
      }
    }
  }

  /** Restocking the lines of the full return of `items`, as a passing return
      does, undoes taking them off. */
  lemma FullReturnUndoesIssue(inv0: map<int, Item>, inv1: map<int, Item>, inv2: map<int, Item>, items: seq<IssueRequest>)
    requires inv1.Keys == inv0.Keys && inv2.Keys == inv1.Keys
    requires forall k :: 0 <= k < |items| ==> items[k].itemId in inv0
    requires forall k :: 0 <= k < |items| ==>
               inv1[items[k].itemId] == inv0[items[k].itemId].(currentStock := inv0[items[k].itemId].currentStock - items[k].quantity)
    requires forall id :: id in inv0 && id !in IssuedIds(items) ==> inv1[id] == inv0[id]
    requires var rs := FullReturn(items);
             && (forall k :: 0 <= k < |rs| ==>
                   inv2[rs[k].itemId] == inv1[rs[k].itemId].(currentStock := inv1[rs[k].itemId].currentStock + rs[k].returnedQty))
             && (forall id :: id in inv1 && id !in ReturnedIds(rs) ==> inv2[id] == inv1[id])
             && ReturnedIds(rs) == IssuedIds(items)
    ensures inv2 == inv0
  {
    var rs := FullReturn(items);
    forall k | 0 <= k < |items|
      ensures inv2[items[k].itemId] ==
                inv1[items[k].itemId].(currentStock := inv1[items[k].itemId].currentStock + items[k].quantity)
    {
      assert rs[k].itemId == items[k].itemId && rs[k].returnedQty == items[k].quantity;
    }
    StockRoundTrip(inv0, inv1, inv2, items);
  }

  /** A full return to the job an issue of distinct items created puts back
      what that issue took off. */
  lemma FullReturnRestocks(inv: map<int, Item>, s1: State, jobId: string, items: seq<IssueRequest>, later: int)
    requires DistinctIssueIds(items) && jobId in s1.jobs && s1.jobs[jobId].items == ActiveJobItems(items)
    requires s1.inventory.Keys == inv.Keys && forall k :: 0 <= k < |items| ==> items[k].itemId in inv
    requires forall k :: 0 <= k < |items| ==>
               s1.inventory[items[k].itemId] == inv[items[k].itemId].(currentStock := inv[items[k].itemId].currentStock - items[k].quantity)
    requires forall id :: id in inv && id !in IssuedIds(items) ==> s1.inventory[id] == inv[id]
    ensures ReturnStep(s1, jobId, FullReturn(items), later).result == Ok(())
    ensures ReturnStep(s1, jobId, FullReturn(items), later).after.inventory == inv
  {
    FullReturnAccepted(s1.jobs[jobId], items);
    ReturnSucceeds(s1, jobId, FullReturn(items), later);
    FullReturnUndoesIssue(inv, s1.inventory, ReturnStep(s1, jobId, FullReturn(items), later).after.inventory, items);
  }

  /** Issuing distinct items and then returning every line in full puts
      every item's stock back. */
  lemma IssueThenReturnStock(s: State, jobId: string, personName: string, items: seq<IssueRequest>,
                             task: string, date: Option<int>, now: int, later: int)
    requires AllPass(s.inventory, items) && DistinctIssueIds(items) && jobId !in s.jobs
    ensures var issued := IssueStep(s, jobId, personName, items, task, date, now);
            var returned := ReturnStep(issued.after, jobId, FullReturn(items), later);
            && issued.result == Ok(()) && returned.result == Ok(())
            && returned.after.inventory == s.inventory
  {
    var s1 := IssueStep(s, jobId, personName, items, task, date, now).after;
    IssueSucceeds(s, jobId, personName, items, task, date, now);
    assert s1.jobs[jobId].items == ActiveJobItems(items);
    FullReturnRestocks(s.inventory, s1, jobId, items, later);
  }

  /** Issuing distinct items to a new job and then returning every line in
      full removes the job again and leaves one 'issue' and one 'return'
      record per line. */
  lemma IssueThenReturnJobs(s: State, jobId: string, personName: string, items: seq<IssueRequest>,
                            task: string, date: Option<int>, now: int, later: int)
    requires AllPass(s.inventory, items) && DistinctIssueIds(items) && jobId !in s.jobs
    ensures var issued := IssueStep(s, jobId, personName, items, task, date, now);
            var returned := ReturnStep(issued.after, jobId, FullReturn(items), later);
            && returned.after.jobs == s.jobs
            && |returned.after.log| == |s.log| + 2 * |items|
  {
    var s1 := IssueStep(s, jobId, personName, items, task, date, now).after;
    var job := s1.jobs[jobId];
    assert job.items == ActiveJobItems(items);
    FullReturnAccepted(job, items);
    var s2 := ReturnStep(s1, jobId, FullReturn(items), later).after;
    FirstMissingAt(s1.inventory, FullReturn(items), |items|);
    assert s2.jobs == s1.jobs - {jobId};
    assert s2.jobs == s.jobs;
  }

  /** Issuing distinct items to a new job and then returning every line in
      full restores every item's stock exactly and removes the job; the log
      keeps one 'issue' and one 'return' record per line. */
  lemma IssueThenReturnRestores(s: State, jobId: string, personName: string, items: seq<IssueRequest>,
                                task: string, date: Option<int>, now: int, later: int)
    requires AllPass(s.inventory, items) && DistinctIssueIds(items) && jobId !in s.jobs
    ensures var issued := IssueStep(s, jobId, personName, items, task, date, now);
            var returned := ReturnStep(issued.after, jobId, FullReturn(items), later);
            && issued.result == Ok(()) && returned.result == Ok(())
            && returned.after.inventory == s.inventory
            && returned.after.jobs == s.jobs
            && |returned.after.log| == |s.log| + 2 * |items|
  {
    IssueThenReturnStock(s, jobId, personName, items, task, date, now, later);
    IssueThenReturnJobs(s, jobId, personName, items, task, date, now, later);
  }
}
