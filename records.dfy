/** The records kept by the warehouse database: inventory items, transaction-log
    entries and active jobs, the request shapes the issue and return screens hand
    to the ledger, and the ways an operation can be rejected. */
module Records {

  datatype Option<+T> = None | Some(value: T)

  /** What a database call resolves or rejects with. */
  datatype Result<+T> = Ok(value: T) | Err(error: Error)

  /** One rejection per way the store or the ledger can fail. The message
      text of db.js's errors is not modelled, only the kind and the
      values the message mentions. */
  datatype Error =
    | ItemNotFound                                  // updateInventoryItem on an absent id
    | DuplicateName                                 // the unique `name` index of `inventory`
    | DuplicateJobId                                // the `jobId` key of `activeJobs` is taken
    | MissingItem(itemId: int)                      // an item read came back undefined
    | InsufficientStock(itemName: string, available: int, requested: int)
    | JobNotFound
    | ItemNotOnJob(itemId: int, jobId: string)
    | ReturnExceedsIssued(itemName: string)

  /** A row of the `inventory` store; `id` is its auto-increment key. */
  datatype Item = Item(id: int, name: string, currentStock: int, unit: string)

  /** The `action` field of a transaction record: the ledger only ever writes
      'issue' or 'return'. */
  datatype Action = Issue | Return

  /** A row of the `transactions` store; `id` is its auto-increment key and
      `date` a timestamp in milliseconds. */
  datatype Txn = Txn(
    id: int, jobId: string, personName: string, itemId: int, itemName: string,
    quantity: int, action: Action, task: string, date: int)

  /** An entry of an active job's item list. */
  datatype JobItem = JobItem(id: int, name: string, quantity: int, unit: string)

  /** A row of the `activeJobs` store, keyed on `jobId`. */
  datatype Job = Job(jobId: string, personName: string, items: seq<JobItem>, task: string, date: int)

  /** One line of an issue request. */
  datatype IssueRequest = IssueRequest(itemId: int, itemName: string, quantity: int)

  /** One line of a return request; `originalQty` is supplied by the caller. */
  datatype ReturnRequest = ReturnRequest(itemId: int, returnedQty: int, originalQty: int)
}
