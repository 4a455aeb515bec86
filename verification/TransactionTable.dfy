/** The HTTP server's table of open transactions: its entries, and what each locked section decides and changes. */
module TransactionTable {
  import opened Bytes
  import opened Values

  /** Nanoseconds. */
  const TRANSACTION_IDLE_TIMEOUT: nat := 60_000_000_000

  datatype Principal = Local | Admin | Bearer(hash: seq<u8>)

  datatype Auth = Auth(immutable: bool, principal: Principal)

  /** `tx` names the transaction's worker and its pair of channels. */
  datatype Stored = Stored(tx: nat, owner: Principal, write: bool, expiresAt: nat, inFlight: nat)

  datatype Status = Granted | NotFound | Forbidden | Conflict

  type Table = map<u32, Stored>

  predicate IdleExpired(entry: Stored, now: nat) {
    entry.inFlight == 0 && entry.expiresAt <= now
  }

  /** Which answer a request for a lease gets. */
  function MayAcquire(txs: Table, id: u32, auth: Auth): Status {
    if id !in txs then NotFound
    else if txs[id].owner != auth.principal then Forbidden
    else if txs[id].write && auth.immutable then Forbidden
    else if txs[id].inFlight != 0 then Conflict
    else Granted
  }

  /** Which answer a request to commit or abort gets. */
  function MayFinish(txs: Table, id: u32, auth: Auth, abort: bool): Status {
    if id !in txs then NotFound
    else if txs[id].owner != auth.principal then Forbidden
    else if txs[id].write && auth.immutable && !abort then Forbidden
    else if txs[id].inFlight != 0 then Conflict
    else Granted
  }

  function Acquired(txs: Table, id: u32): Table
    requires id in txs
  {
    txs[id := txs[id].(inFlight := txs[id].inFlight + 1)]
  }

  function Released(txs: Table, id: u32, now: nat): Table {
    if id !in txs then txs
    else if txs[id].inFlight <= 1 then
      txs[id := txs[id].(inFlight := 0, expiresAt := now + TRANSACTION_IDLE_TIMEOUT)]
    else txs[id := txs[id].(inFlight := txs[id].inFlight - 1)]
  }

  function Expired(txs: Table, now: nat): set<u32> {
    set id | id in txs && IdleExpired(txs[id], now)
  }
}
