/** The ledger as a value: the three stores of the warehouse database and the
    two operations that change more than one of them, `issueItems` and
    `returnItemsToInventory`, as functions from the state before to the state
    after and what the returned promise settles with. */
module Ledger {
  import opened Records
  import opened Inventory

  /** The contents of the `inventory`, `transactions` and `activeJobs` stores,
      and the next key the `inventory` key generator hands out. */
  datatype State = State(
    inventory: map<int, Item>, nextItemId: int, log: seq<Txn>, jobs: map<string, Job>)

  /** The state an operation leaves behind and what it resolves or rejects with. */
  datatype Step = Step(after: State, result: Result<()>)

  /** What the stores' key paths, key generators and unique index guarantee:
      in particular the key generator never hands out a key in use, and the
      log's keys rise strictly in log order. */
  ghost predicate Valid(s: State): (b: bool)
    ensures b ==> s.nextItemId !in s.inventory
    ensures b ==> forall i, j :: 0 <= i < j < |s.log| ==> s.log[i].id < s.log[j].id
  {
    && s.nextItemId >= 1
    && (forall id :: id in s.inventory ==> 1 <= id < s.nextItemId && s.inventory[id].id == id)
    && NamesUnique(s.inventory)
    && (forall i :: 0 <= i < |s.log| ==> s.log[i].id == i + 1)
    && (forall k :: k in s.jobs ==> s.jobs[k].jobId == k)
  }

  // ---------------------------------------------------------------------------
  // issueItems

  /** What the stock check of one request line returns when it passes. */
  datatype Checked = Checked(itemId: int, currentStock: int, requestedQty: int)

  /** The stock check of one request line: an absent item makes `dbItem`
      undefined and the check throws; a short item is rejected. */
  function CheckItem(inv: map<int, Item>, q: IssueRequest): (r: Result<Checked>)
    ensures r.Ok? <==> Passes(inv, q)
    ensures r.Ok? ==> r.value == Checked(q.itemId, inv[q.itemId].currentStock, q.quantity)
    ensures q.itemId !in inv ==> r == Err(MissingItem(q.itemId))
    ensures q.itemId in inv && r.Err? ==>
              r == Err(InsufficientStock(inv[q.itemId].name, inv[q.itemId].currentStock, q.quantity))
  {
    if q.itemId !in inv then Err(MissingItem(q.itemId))
    else if inv[q.itemId].currentStock < q.quantity then
      Err(InsufficientStock(inv[q.itemId].name, inv[q.itemId].currentStock, q.quantity))
    else Ok(Checked(q.itemId, inv[q.itemId].currentStock, q.quantity))
  }

  /** A request line passes the check exactly when its item exists and has at
      least the requested quantity in stock. */
  predicate Passes(inv: map<int, Item>, q: IssueRequest) {
    q.itemId in inv && inv[q.itemId].currentStock >= q.quantity
  }

  /** Every line of an issue request passes its stock check. */
  predicate AllPass(inv: map<int, Item>, items: seq<IssueRequest>) {
    forall k :: 0 <= k < |items| ==> Passes(inv, items[k])
  }

  /** Line `k` is the first request line that fails its check. */
  predicate FirstFailure(inv: map<int, Item>, items: seq<IssueRequest>, k: int)
    requires 0 <= k < |items|
  {
    !Passes(inv, items[k]) && forall j :: 0 <= j < k ==> Passes(inv, items[j])
  }

  /** The checks of all request lines against one snapshot of the inventory:
      every line passes, or the first line that fails decides the rejection. */
  function CheckStock(inv: map<int, Item>, items: seq<IssueRequest>): (r: Result<seq<Checked>>)
    ensures r.Ok? <==> forall k :: 0 <= k < |items| ==> Passes(inv, items[k])
    ensures r.Ok? ==> |r.value| == |items|
    ensures r.Ok? ==> forall k :: 0 <= k < |items| ==>
                        r.value[k] == Checked(items[k].itemId, inv[items[k].itemId].currentStock, items[k].quantity)
    ensures r.Err? ==> exists k :: 0 <= k < |items| && FirstFailure(inv, items, k) && CheckItem(inv, items[k]) == Err(r.error)
    decreases |items|
  {
    if items == [] then Ok([])
    else
      var init := items[..|items| - 1];
      var last := |items| - 1;
      assert forall k :: 0 <= k < last ==> init[k] == items[k];
      match CheckStock(inv, init)
      case Err(e) =>
        assert exists k :: 0 <= k < last && FirstFailure(inv, items, k) && CheckItem(inv, items[k]) == Err(e) by {
          var k :| 0 <= k < last && FirstFailure(inv, init, k) && CheckItem(inv, init[k]) == Err(e);
          assert FirstFailure(inv, items, k);
        }
        Err(e)
      case Ok(cs) =>
        match CheckItem(inv, items[last])
        case Err(e) =>
          assert FirstFailure(inv, items, last);
          Err(e)
        case Ok(c) => Ok(cs + [c])
  }

  /** When line `i` is the first to fail, its own failure is the rejection. */
  lemma CheckStockRejects(inv: map<int, Item>, items: seq<IssueRequest>, i: int)
    requires 0 <= i < |items| && FirstFailure(inv, items, i)
    ensures CheckItem(inv, items[i]).Err?
    ensures CheckStock(inv, items) == Err(CheckItem(inv, items[i]).error)
  {
    var r := CheckStock(inv, items);
    var k :| 0 <= k < |items| && FirstFailure(inv, items, k) && CheckItem(inv, items[k]) == Err(r.error);
    assert k == i;
  }

  /** The stock writes of a passed check: each line writes the stock it read
      minus its own quantity. */
  function IssueWrites(cs: seq<Checked>): (ws: seq<StockWrite>)
    ensures |ws| == |cs|
    ensures forall k :: 0 <= k < |cs| ==> ws[k].itemId == cs[k].itemId
    ensures forall k :: 0 <= k < |cs| ==> ws[k].newStock == cs[k].currentStock - cs[k].requestedQty
  {
    seq(|cs|, k requires 0 <= k < |cs| => StockWrite(cs[k].itemId, cs[k].currentStock - cs[k].requestedQty))
  }

  /** The 'issue' records appended for the request lines, keyed from `firstId`. */
  function IssueEntries(firstId: int, jobId: string, personName: string, items: seq<IssueRequest>,
                        task: string, date: int): (es: seq<Txn>)
    ensures |es| == |items| && forall k :: 0 <= k < |es| ==> es[k].id == firstId + k
    ensures forall k :: 0 <= k < |items| ==>
              && es[k].action == Issue && es[k].jobId == jobId && es[k].date == date
              && es[k].itemId == items[k].itemId && es[k].quantity == items[k].quantity
  {
    seq(|items|, k requires 0 <= k < |items| =>
      Txn(firstId + k, jobId, personName, items[k].itemId, items[k].itemName, items[k].quantity, Issue, task, date))
  }

  /** The item list of the job an issue creates: every line at its full
      quantity, with no unit. */
  function ActiveJobItems(items: seq<IssueRequest>): (js: seq<JobItem>)
    ensures |js| == |items|
    ensures forall k :: 0 <= k < |items| ==>
              && js[k].id == items[k].itemId && js[k].name == items[k].itemName
              && js[k].quantity == items[k].quantity && js[k].unit == ""
    ensures forall k :: 0 <= k < |items| ==> FindJobItem(js, items[k].itemId).Some?
  {
    seq(|items|, k requires 0 <= k < |items| => JobItem(items[k].itemId, items[k].itemName, items[k].quantity, ""))
  }

  /** The date an issue records: the given one, or else the current time. */
  function IssueDate(date: Option<int>, now: int): (r: int)
    ensures date.Some? ==> r == date.value
    ensures date.None? ==> r == now
  {
    match date
    case Some(d) => d
    case None => now
  }

  /** `issueItems`: check every line against one snapshot; on success write the
      stocks, append one 'issue' record per line and add the job, in that
      order. The job's key is only found taken at that last write, when the
      stock writes and the records are already in place. */
  function IssueStep(s: State, jobId: string, personName: string, items: seq<IssueRequest>,
                 task: string, date: Option<int>, now: int): (r: Step)
    ensures r.result.Ok? <==> AllPass(s.inventory, items) && jobId !in s.jobs
    ensures !AllPass(s.inventory, items) ==> r.after == s
    ensures r.after.nextItemId == s.nextItemId && r.after.inventory.Keys == s.inventory.Keys
    ensures r.after.jobs.Keys == s.jobs.Keys + (if r.result.Ok? then {jobId} else {})
  {
    match CheckStock(s.inventory, items)
    case Err(e) => Step(s, Err(e))
    case Ok(cs) =>
      var when := IssueDate(date, now);
      var inventory := ApplyWrites(s.inventory, IssueWrites(cs));
      var log := s.log + IssueEntries(|s.log| + 1, jobId, personName, items, task, when);
      if jobId in s.jobs then
        Step(s.(inventory := inventory, log := log), Err(DuplicateJobId))
      else
        var job := Job(jobId, personName, ActiveJobItems(items), task, when);
        Step(s.(inventory := inventory, log := log, jobs := s.jobs[jobId := job]), Ok(()))
  }

  // ---------------------------------------------------------------------------
  // returnItemsToInventory

  /** Entry `k` is the first entry of `items` with the given id. */
  predicate FirstWithId(items: seq<JobItem>, id: int, k: int)
    requires 0 <= k < |items|
  {
    items[k].id == id && forall j :: 0 <= j < k ==> items[j].id != id
  }

  /** The first entry of a job's item list with the given id. */
  function FindJobItem(items: seq<JobItem>, id: int): (r: Option<JobItem>)
    ensures r.None? <==> forall k :: 0 <= k < |items| ==> items[k].id != id
    ensures r.Some? ==> exists k :: 0 <= k < |items| && items[k] == r.value && FirstWithId(items, id, k)
    decreases |items|
  {
    if items == [] then None
    else if items[0].id == id then Some(items[0])
    else
      var r := FindJobItem(items[1..], id);
      assert r.Some? ==> exists k :: 0 <= k < |items| && items[k] == r.value && FirstWithId(items, id, k) by {
        if r.Some? {
          var k :| 0 <= k < |items| - 1 && items[1..][k] == r.value && FirstWithId(items[1..], id, k);
          forall j | 1 <= j < k + 1 ensures items[j].id != id {
            assert items[j] == items[1..][j - 1];
          }
          assert FirstWithId(items, id, k + 1);
        }
      }
      r
  }

  /** The check of one return line: its item must be on the job, and it may not
      return more than the caller says was issued. */
  function ValidateItem(jobId: string, job: Job, q: ReturnRequest): (r: Result<JobItem>)
    ensures r.Ok? <==> Acceptable(job, q)
    ensures r.Ok? ==> Some(r.value) == FindJobItem(job.items, q.itemId)
    ensures FindJobItem(job.items, q.itemId).None? ==> r == Err(ItemNotOnJob(q.itemId, jobId))
    ensures FindJobItem(job.items, q.itemId).Some? && r.Err? ==>
              r == Err(ReturnExceedsIssued(FindJobItem(job.items, q.itemId).value.name))
  {
    match FindJobItem(job.items, q.itemId)
    case None => Err(ItemNotOnJob(q.itemId, jobId))
    case Some(ji) => if q.returnedQty > q.originalQty then Err(ReturnExceedsIssued(ji.name)) else Ok(ji)
  }

  /** A return line passes its check. */
  predicate Acceptable(job: Job, q: ReturnRequest) {
    FindJobItem(job.items, q.itemId).Some? && q.returnedQty <= q.originalQty
  }

  /** Every line of a return request passes its check. */
  predicate AllAcceptable(job: Job, rs: seq<ReturnRequest>) {
    forall k :: 0 <= k < |rs| ==> Acceptable(job, rs[k])
  }

  /** Every line of a return request names an item the inventory holds. */
  predicate AllStocked(inv: map<int, Item>, rs: seq<ReturnRequest>) {
    forall k :: 0 <= k < |rs| ==> rs[k].itemId in inv
  }

  /** Line `k` is the first return line that fails its check. */
  predicate FirstRejected(job: Job, rs: seq<ReturnRequest>, k: int)
    requires 0 <= k < |rs|
  {
    !Acceptable(job, rs[k]) && forall j :: 0 <= j < k ==> Acceptable(job, rs[j])
  }

  /** The checks of all return lines, in order: each yields the job's entry
      for its item, or the first failing line decides the rejection. */
  function ValidateReturn(jobId: string, job: Job, rs: seq<ReturnRequest>): (r: Result<seq<JobItem>>)
    ensures r.Ok? <==> forall k :: 0 <= k < |rs| ==> Acceptable(job, rs[k])
    ensures r.Ok? ==> |r.value| == |rs|
    ensures r.Ok? ==> forall k :: 0 <= k < |rs| ==> Some(r.value[k]) == FindJobItem(job.items, rs[k].itemId)
    ensures r.Err? ==> exists k :: 0 <= k < |rs| && FirstRejected(job, rs, k) && ValidateItem(jobId, job, rs[k]) == Err(r.error)
    decreases |rs|
  {
    if rs == [] then Ok([])
    else
      var init := rs[..|rs| - 1];
      var last := |rs| - 1;
      assert forall k :: 0 <= k < last ==> init[k] == rs[k];
      match ValidateReturn(jobId, job, init)
      case Err(e) =>
        assert exists k :: 0 <= k < last && FirstRejected(job, rs, k) && ValidateItem(jobId, job, rs[k]) == Err(e) by {
          var k :| 0 <= k < last && FirstRejected(job, init, k) && ValidateItem(jobId, job, init[k]) == Err(e);
          assert FirstRejected(job, rs, k);
        }
        Err(e)
      case Ok(found) =>
        match ValidateItem(jobId, job, rs[last])
        case Err(e) =>
          assert FirstRejected(job, rs, last);
          Err(e)
        case Ok(ji) =>
          assert forall k :: 0 <= k < last ==> (found + [ji])[k] == found[k];
          Ok(found + [ji])
  }

  /** When line `i` is the first to fail, its own failure is the rejection. */
  lemma ValidateReturnRejects(jobId: string, job: Job, rs: seq<ReturnRequest>, i: int)
    requires 0 <= i < |rs| && FirstRejected(job, rs, i)
    ensures ValidateItem(jobId, job, rs[i]).Err?
    ensures ValidateReturn(jobId, job, rs) == Err(ValidateItem(jobId, job, rs[i]).error)
  {
    var r := ValidateReturn(jobId, job, rs);
    var k :| 0 <= k < |rs| && FirstRejected(job, rs, k) && ValidateItem(jobId, job, rs[k]) == Err(r.error);
    assert k == i;
  }

  /** When every line passes, the checks yield exactly the job entries the
      lines name. */
  lemma ValidateReturnAccepts(jobId: string, job: Job, rs: seq<ReturnRequest>, found: seq<JobItem>)
    requires |found| == |rs| && forall k :: 0 <= k < |rs| ==> ValidateItem(jobId, job, rs[k]) == Ok(found[k])
    ensures ValidateReturn(jobId, job, rs) == Ok(found)
  {
    var r := ValidateReturn(jobId, job, rs);
    assert r.value == found;
  }

  /** How many leading return lines name an item the inventory holds. */
  function FirstMissing(inv: map<int, Item>, rs: seq<ReturnRequest>): (n: nat)
    ensures n <= |rs|
    ensures forall k :: 0 <= k < n ==> rs[k].itemId in inv
    ensures n < |rs| ==> rs[n].itemId !in inv
    decreases |rs|
  {
    if rs == [] || rs[0].itemId !in inv then 0 else 1 + FirstMissing(inv, rs[1..])
  }

  /** `FirstMissing` is the position of the first line whose item is absent. */
  lemma FirstMissingAt(inv: map<int, Item>, rs: seq<ReturnRequest>, j: int)
    requires 0 <= j <= |rs|
    requires forall k :: 0 <= k < j ==> rs[k].itemId in inv
    requires j < |rs| ==> rs[j].itemId !in inv
    ensures FirstMissing(inv, rs) == j
  {
    var n := FirstMissing(inv, rs);
    assert n == j;
  }

  /** The stock writes of a return: each line writes the stock it read plus
      its own returned quantity. */
  function ReturnWrites(inv: map<int, Item>, rs: seq<ReturnRequest>): (ws: seq<StockWrite>)
    requires forall k :: 0 <= k < |rs| ==> rs[k].itemId in inv
    ensures |ws| == |rs| && Targets(inv, ws)
    ensures forall k :: 0 <= k < |rs| ==> ws[k].itemId == rs[k].itemId
    ensures forall k :: 0 <= k < |rs| ==> ws[k].newStock == inv[rs[k].itemId].currentStock + rs[k].returnedQty
  {
    seq(|rs|, k requires 0 <= k < |rs| =>
      StockWrite(rs[k].itemId, inv[rs[k].itemId].currentStock + rs[k].returnedQty))
  }

  /** The 'return' records appended for the return lines, keyed from `firstId`:
      the person and task are the job's, the item name the job entry's. */
  function ReturnEntries(firstId: int, jobId: string, job: Job, rs: seq<ReturnRequest>, found: seq<JobItem>,
                         date: int): (es: seq<Txn>)
    requires |found| == |rs|
    ensures |es| == |rs| && forall k :: 0 <= k < |es| ==> es[k].id == firstId + k
    ensures forall k :: 0 <= k < |rs| ==>
              && es[k].action == Return && es[k].jobId == jobId && es[k].date == date
              && es[k].itemId == rs[k].itemId && es[k].quantity == rs[k].returnedQty
  {
    seq(|rs|, k requires 0 <= k < |rs| =>
      Txn(firstId + k, jobId, job.personName, rs[k].itemId, found[k].name, rs[k].returnedQty,
          Return, job.task, date))
  }

  /** Every return line returns exactly what the caller says was issued. */
  predicate AllReturned(rs: seq<ReturnRequest>): (b: bool)
    ensures rs == [] ==> b
    ensures b ==> forall k :: 0 <= k < |rs| ==> rs[k].returnedQty <= rs[k].originalQty
  {
    forall k :: 0 <= k < |rs| ==> rs[k].returnedQty == rs[k].originalQty
  }

  /** `returnItemsToInventory`: load the job and check every line; on success
      write the stocks, append one 'return' record per line and delete the job
      when every line returns its original quantity. A line whose item the
      inventory lacks breaks off the stock writes there, after the earlier
      lines' writes. */
  function ReturnStep(s: State, jobId: string, rs: seq<ReturnRequest>, now: int): (r: Step)
    ensures jobId !in s.jobs ==> r == Step(s, Err(JobNotFound))
    ensures r.result.Ok? <==> jobId in s.jobs && AllAcceptable(s.jobs[jobId], rs) && AllStocked(s.inventory, rs)
    ensures r.after.nextItemId == s.nextItemId && r.after.inventory.Keys == s.inventory.Keys
  {
    if jobId !in s.jobs then Step(s, Err(JobNotFound))
    else
      var job := s.jobs[jobId];
      match ValidateReturn(jobId, job, rs)
      case Err(e) => Step(s, Err(e))
      case Ok(found) =>
        var n := FirstMissing(s.inventory, rs);
        var inventory := ApplyWrites(s.inventory, ReturnWrites(s.inventory, rs[..n]));
        if n < |rs| then
          Step(s.(inventory := inventory), Err(MissingItem(rs[n].itemId)))
        else
          var log := s.log + ReturnEntries(|s.log| + 1, jobId, job, rs, found, now);
          var jobs := if AllReturned(rs) then s.jobs - {jobId} else s.jobs;
          Step(s.(inventory := inventory, log := log, jobs := jobs), Ok(()))
  }

  // ---------------------------------------------------------------------------
  // The checked-out total

  /** The quantities on one job's item list, added up. */
  function JobQuantity(items: seq<JobItem>): (r: int)
    ensures (forall k :: 0 <= k < |items| ==> items[k].quantity >= 0) ==> r >= 0
    ensures items == [] ==> r == 0
    decreases |items|
  {
    if items == [] then 0 else JobQuantity(items[..|items| - 1]) + items[|items| - 1].quantity
  }

  /** Adding up one more entry of an item list adds its quantity. */
  lemma JobQuantityStep(items: seq<JobItem>, i: int)
    requires 0 <= i < |items|
    ensures JobQuantity(items[..i + 1]) == JobQuantity(items[..i]) + items[i].quantity
  {
    assert items[..i + 1][..i] == items[..i];
  }

  /** The quantities on the jobs with the given keys, added up. */
  ghost function CheckedOutOver(jobs: map<string, Job>, keys: set<string>): (r: int)
    requires keys <= jobs.Keys
    ensures (forall k :: k in keys ==> JobQuantity(jobs[k].items) >= 0) ==> r >= 0
    decreases |keys|
  {
    if keys == {} then 0
    else
      assert exists k :: k in keys by {
        if forall k :: k !in keys { assert false; }
      }
      var k :| k in keys;
      JobQuantity(jobs[k].items) + CheckedOutOver(jobs, keys - {k})
  }

  /** The quantities on every active job, added up. */
  ghost function CheckedOut(jobs: map<string, Job>): (r: int)
    ensures jobs == map[] ==> r == 0
    ensures (forall k :: k in jobs ==> JobQuantity(jobs[k].items) >= 0) ==> r >= 0
  {
    CheckedOutOver(jobs, jobs.Keys)
  }

  /** The total does not depend on which job is taken first. */
  lemma {:induction false} CheckedOutTakes(jobs: map<string, Job>, keys: set<string>, k: string)
    requires keys <= jobs.Keys && k in keys
    ensures CheckedOutOver(jobs, keys) == JobQuantity(jobs[k].items) + CheckedOutOver(jobs, keys - {k})
    decreases |keys|
  {
    assert exists k' :: k' in keys;
    var k' :| k' in keys && CheckedOutOver(jobs, keys) == JobQuantity(jobs[k'].items) + CheckedOutOver(jobs, keys - {k'});
    if k' != k {
      CheckedOutTakes(jobs, keys - {k'}, k);
      CheckedOutTakes(jobs, keys - {k}, k');
      assert keys - {k'} - {k} == keys - {k} - {k'};
    }
  }
}
